/** What a whole sync run comes to, whatever the order in which downloads end. */
module SyncOutcomes {
  import opened Options
  import opened SyncRun

  // ---- Sets behind the lists ----------------------------------------------------------------

  ghost function Keys(jobs: seq<Job>): set<RowKey> {
    set j | j in jobs :: j.key
  }

  ghost function KeysWith(w: World, jobs: seq<Job>, o: ImportOutcome): set<RowKey> {
    set j | j in jobs && OutcomeOf(w, j) == o :: j.key
  }

  ghost function Names(keys: set<RowKey>): set<string> {
    set k | k in keys :: k.collection
  }

  ghost function Elements<T>(s: seq<T>): set<T> {
    set x | x in s
  }

  ghost predicate OnePerCollection(jobs: seq<Job>) {
    forall i, j :: 0 <= i < j < |jobs| ==> jobs[i].key.collection != jobs[j].key.collection
  }

  function StatusFor(o: ImportOutcome): Status {
    match o
    case Imported => Completed
    case ImportError => Failed
    case Stopped => Discovered
  }

  function ModeFor(k: RowKey): CollectionMode {
    CollectionMode(Auto, Some(k.identifier))
  }

  ghost predicate RowsSettled(b: Rows, w: World, jobs: seq<Job>, r: Rows) {
    && r.Keys == b.Keys + Keys(jobs)
    && (forall j :: j in jobs ==> r[j.key] == StatusFor(OutcomeOf(w, j)))
    && (forall k :: k in b && k !in Keys(jobs) ==> r[k] == b[k])
  }

  ghost predicate ModesSettled(b: Modes, keys: set<RowKey>, r: Modes) {
    && r.Keys == b.Keys + Names(keys)
    && (forall k :: k in keys ==> r[k.collection] == ModeFor(k))
    && (forall c :: c in b && c !in Names(keys) ==> r[c] == b[c])
  }

  /** The books `r` differ from `b` by exactly these jobs having ended; their order does not appear. */
  ghost predicate SettledBy(b: Books, w: World, jobs: seq<Job>, r: Books) {
    && RowsSettled(b.rows, w, jobs, r.rows)
    && ModesSettled(b.modes, KeysWith(w, jobs, Imported), r.modes)
    && Elements(r.processed) == Elements(b.processed) + KeysWith(w, jobs, Imported)
    && Elements(r.failed) == Elements(b.failed) + Names(KeysWith(w, jobs, ImportError))
    && r.skipped == b.skipped && r.blocked == b.blocked
  }

  lemma JobsSnoc(w: World, jobs: seq<Job>, j: Job, o: ImportOutcome)
    ensures Keys(jobs + [j]) == Keys(jobs) + {j.key}
    ensures KeysWith(w, jobs + [j], o) == KeysWith(w, jobs, o) + if OutcomeOf(w, j) == o then {j.key} else {}
  {
    hide OutcomeOf;
  }

  lemma NamesAdd(keys: set<RowKey>, k: RowKey)
    ensures Names(keys + {k}) == Names(keys) + {k.collection} && Names({}) == {}
  {
  }

  lemma RowStep(b: Rows, w: World, jobs: seq<Job>, r: Rows, j: Job)
    requires RowsSettled(b, w, jobs, r)
    requires forall i :: i in jobs ==> i.key.collection != j.key.collection
    ensures RowsSettled(b, w, jobs + [j], r[j.key := StatusFor(OutcomeOf(w, j))])
  {
    hide OutcomeOf, StatusFor;
    assert Keys(jobs + [j]) == Keys(jobs) + {j.key};
  }

  lemma ModeStep(b: Modes, keys: set<RowKey>, r: Modes, k: RowKey)
    requires ModesSettled(b, keys, r) && k.collection !in Names(keys)
    ensures ModesSettled(b, keys + {k}, r[k.collection := ModeFor(k)])
  {
    NamesAdd(keys, k);
  }

  lemma ElementsSnoc<T>(s: seq<T>, x: T)
    ensures Elements(s + [x]) == Elements(s) + {x}
  {
  }

  lemma SettleStep(b: Books, w: World, jobs: seq<Job>, r: Books, j: Job)
    requires SettledBy(b, w, jobs, r) && OutcomeOf(w, j) != Stopped
    requires forall i :: i in jobs ==> i.key.collection != j.key.collection
    ensures SettledBy(b, w, jobs + [j], Settle(r, w, j))
  {
    hide OutcomeOf, RowsSettled, ModesSettled, Settle, KeysWith, Keys, Names, Elements, StatusFor;
    RowStep(b.rows, w, jobs, r.rows, j);
    JobsSnoc(w, jobs, j, Imported);
    JobsSnoc(w, jobs, j, ImportError);
    BooksAfter(r, w, j);
    var imported, failed := KeysWith(w, jobs, Imported), KeysWith(w, jobs, ImportError);
    assert imported + {} == imported && failed + {} == failed;
    if OutcomeOf(w, j) == Imported {
      assert j.key.collection !in Names(imported) by { OtherCollections(w, jobs, j.key.collection, Imported); }
      ModeStep(b.modes, imported, r.modes, j.key);
      ElementsSnoc(r.processed, j.key);
    } else {
      NamesAdd(failed, j.key);
      ElementsSnoc(r.failed, j.key.collection);
    }
  }

  /** The books after a job that was not stopped, field by field. */
  lemma BooksAfter(r: Books, w: World, j: Job)
    requires OutcomeOf(w, j) != Stopped
    ensures var s := Settle(r, w, j);
            && s.rows == r.rows[j.key := StatusFor(OutcomeOf(w, j))] && s.skipped == r.skipped && s.blocked == r.blocked
            && (OutcomeOf(w, j) == Imported ==>
                  s.modes == r.modes[j.key.collection := ModeFor(j.key)] && s.processed == r.processed + [j.key] && s.failed == r.failed)
            && (OutcomeOf(w, j) == ImportError ==>
                  s.modes == r.modes && s.processed == r.processed && s.failed == r.failed + [j.key.collection])
  {
    hide OutcomeOf;
  }

  lemma {:induction false} SettleAllClosed(b: Books, w: World, jobs: seq<Job>)
    requires OnePerCollection(jobs) && !AnyStopped(w, jobs)
    ensures SettledBy(b, w, jobs, SettleAll(b, w, jobs))
  {
    hide OutcomeOf, Settle;
    if jobs == [] {
      NoJobs(b, w);
    } else {
      var n := |jobs| - 1;
      var front, j := jobs[..n], jobs[n];
      assert jobs == front + [j] && jobs[..n + 1] == jobs;
      SettleNext(b, w, jobs, n);
      SettleAllClosed(b, w, front);
      SettleStep(b, w, front, SettleAll(b, w, front), j);
    }
  }

  lemma NoJobs(b: Books, w: World)
    ensures SettledBy(b, w, [], b)
  {
    assert Keys([]) == {} && KeysWith(w, [], Imported) == {} && KeysWith(w, [], ImportError) == {};
    assert Names({}) == {};
  }

  // ---- Confluence ------------------------------------------------------------------------------

  /** The same rows and modes, and the same sets of collections in every list of the summary. */
  ghost predicate SameResult(r: Books, s: Books) {
    && r.rows == s.rows && r.modes == s.modes
    && Elements(r.processed) == Elements(s.processed) && Elements(r.failed) == Elements(s.failed)
    && Elements(r.skipped) == Elements(s.skipped) && Elements(r.blocked) == Elements(s.blocked)
  }

  ghost predicate Reordering(jobs: seq<Job>, order: seq<Job>) {
    OnePerCollection(order) && forall j :: j in jobs <==> j in order
  }

  /** Given the outcome of every download and import, the order in which they end is immaterial. */
  lemma CompletionOrderIrrelevant(b: Books, w: World, jobs: seq<Job>, order: seq<Job>)
    requires OnePerCollection(jobs) && Reordering(jobs, order) && !AnyStopped(w, jobs)
    ensures !AnyStopped(w, order)
    ensures SameResult(SettleAll(b, w, jobs), SettleAll(b, w, order))
  {
    hide OutcomeOf, Settle, SettleAll;
    forall i | 0 <= i < |order| ensures OutcomeOf(w, order[i]) != Stopped {
      assert order[i] in jobs;
    }
    SettleAllClosed(b, w, jobs);
    SettleAllClosed(b, w, order);
    SameJobs(w, jobs, order);
    hide RowsSettled, ModesSettled;
    var r, s := SettleAll(b, w, jobs), SettleAll(b, w, order);
    RowsDetermined(b.rows, w, jobs, order, r.rows, s.rows);
    ModesDetermined(b.modes, KeysWith(w, jobs, Imported), r.modes, s.modes);
  }

  lemma SameJobs(w: World, jobs: seq<Job>, order: seq<Job>)
    requires forall j :: j in jobs <==> j in order
    ensures Keys(jobs) == Keys(order)
    ensures forall o :: KeysWith(w, jobs, o) == KeysWith(w, order, o)
  {
    hide OutcomeOf;
  }

  lemma RowsDetermined(b: Rows, w: World, jobs: seq<Job>, order: seq<Job>, r: Rows, s: Rows)
    requires forall j :: j in jobs <==> j in order
    requires RowsSettled(b, w, jobs, r) && RowsSettled(b, w, order, s)
    ensures r == s
  {
    hide OutcomeOf;
    assert Keys(jobs) == Keys(order);
    forall k | k in r ensures r[k] == s[k] {
      if k in Keys(jobs) {
        var j :| j in jobs && j.key == k;
        assert j in order;
      }
    }
  }

  lemma ModesDetermined(b: Modes, keys: set<RowKey>, r: Modes, s: Modes)
    requires ModesSettled(b, keys, r) && ModesSettled(b, keys, s)
    ensures r == s
  {
    forall c | c in r ensures r[c] == s[c] {
      if c in Names(keys) {
        var k :| k in keys && k.collection == c;
      }
    }
  }

  // ---- Discovery ---------------------------------------------------------------------------------

  /** The row that discovery gives a new status, and that status. */
  function Target(p: Plan, c: string): Option<(RowKey, Status)> {
    match p
    case NoRelease => None
    case Skip(_) => None
    case Local(id) => Some((RowKey(c, id), Importing))
    case Block(id) => Some((RowKey(c, id), BlockedStorage))
    case Fetch(id) => Some((RowKey(c, id), Downloading))
  }

  function FirstPlan(b: Books, w: World, c: string): Plan {
    PlanFor(b.rows, b.modes, w, c)
  }

  ghost predicate Targeted(b: Books, w: World, wanted: seq<string>, k: RowKey) {
    k.collection in wanted && var t := Target(FirstPlan(b, w, k.collection), k.collection); t.Some? && t.value.0 == k
  }

  ghost predicate RowsPlanned(b: Books, w: World, wanted: seq<string>, r: Rows) {
    && (forall k :: k in r <==> k in b.rows || Targeted(b, w, wanted, k))
    && (forall k :: Targeted(b, w, wanted, k) ==> r[k] == Target(FirstPlan(b, w, k.collection), k.collection).value.1)
    && (forall k :: k in b.rows && !Targeted(b, w, wanted, k) ==> r[k] == b.rows[k])
  }

  ghost predicate ListsPlanned(b: Books, w: World, wanted: seq<string>, r: Books) {
    && r.modes == b.modes && r.processed == b.processed && r.failed == b.failed
    && (forall c :: c in r.skipped <==> c in b.skipped || (c in wanted && FirstPlan(b, w, c).Skip?))
    && (forall k :: k in r.blocked <==> k in b.blocked || (k.collection in wanted && FirstPlan(b, w, k.collection) == Block(k.identifier)))
  }

  ghost predicate JobsPlanned(b: Books, w: World, wanted: seq<string>, imports: seq<Job>, downloads: seq<Job>) {
    && (forall j :: j in imports <==> j.local && j.key.collection in wanted && FirstPlan(b, w, j.key.collection) == Local(j.key.identifier))
    && (forall j :: j in downloads <==> !j.local && j.key.collection in wanted && FirstPlan(b, w, j.key.collection) == Fetch(j.key.identifier))
    && OnePerCollection(imports) && OnePerCollection(downloads)
  }

  /** Everything discovery did, collection by collection, as decided from the initial rows. */
  ghost predicate DiscoveredFrom(b: Books, w: World, wanted: seq<string>, d: Discovery) {
    && RowsPlanned(b, w, wanted, d.books.rows)
    && ListsPlanned(b, w, wanted, d.books)
    && JobsPlanned(b, w, wanted, d.imports, d.downloads)
  }

  /** A collection that was already visited in this run is planned again as before. */
  lemma PlanStable(b: Books, w: World, wanted: seq<string>, d: Discovery, c: string)
    requires DiscoveredFrom(b, w, wanted, d)
    ensures PlanFor(d.books.rows, b.modes, w, c) == FirstPlan(b, w, c)
  {
    if c in w.releases && !ImportsRetained(b.modes, w, c) {
      var k := RowKey(c, w.releases[c]);
      if Targeted(b, w, wanted, k) {
        assert k in d.books.rows;
      } else {
        assert StatusIn(d.books.rows, k) == StatusIn(b.rows, k);
      }
    }
  }

  lemma AddJobKeepsOnePerCollection(jobs: seq<Job>, j: Job)
    requires OnePerCollection(jobs)
    requires forall i :: i in jobs && i.key.collection == j.key.collection ==> i == j
    ensures OnePerCollection(AddJob(jobs, j)) && forall i :: i in AddJob(jobs, j) <==> i in jobs || i == j
  {
  }

  lemma RowPlanStep(b: Books, w: World, wanted: seq<string>, r: Rows, c: string)
    requires RowsPlanned(b, w, wanted, r)
    ensures var t := Target(FirstPlan(b, w, c), c);
            RowsPlanned(b, w, wanted + [c], if t.Some? then r[t.value.0 := t.value.1] else r)
  {
    TargetedSnoc(b, w, wanted, c);
    hide FirstPlan, Targeted;
    var t := Target(FirstPlan(b, w, c), c);
    assert t.Some? ==> t.value.0.collection == c;
  }

  lemma ListPlanStep(b: Books, w: World, wanted: seq<string>, r: Books, c: string, s: Books)
    requires ListsPlanned(b, w, wanted, r)
    requires s.modes == r.modes && s.processed == r.processed && s.failed == r.failed
    requires s.skipped == if FirstPlan(b, w, c).Skip? then r.skipped + [c] else r.skipped
    requires var p := FirstPlan(b, w, c); s.blocked == if p.Block? then r.blocked + [RowKey(c, p.identifier)] else r.blocked
    ensures ListsPlanned(b, w, wanted + [c], s)
  {
    hide FirstPlan;
  }

  lemma JobPlanStep(b: Books, w: World, wanted: seq<string>, imports: seq<Job>, downloads: seq<Job>, c: string)
    requires JobsPlanned(b, w, wanted, imports, downloads)
    ensures var p := FirstPlan(b, w, c);
            JobsPlanned(b, w, wanted + [c],
              if p.Local? then AddJob(imports, Job(RowKey(c, p.identifier), true)) else imports,
              if p.Fetch? then AddJob(downloads, Job(RowKey(c, p.identifier), false)) else downloads)
  {
    hide FirstPlan, AddJob;
    var p := FirstPlan(b, w, c);
    assert forall x :: x in wanted + [c] <==> x in wanted || x == c;
    if p.Local? { AddJobKeepsOnePerCollection(imports, Job(RowKey(c, p.identifier), true)); }
    if p.Fetch? { AddJobKeepsOnePerCollection(downloads, Job(RowKey(c, p.identifier), false)); }
  }

  lemma DiscoverStep(b: Books, w: World, wanted: seq<string>, d: Discovery, c: string)
    requires DiscoveredFrom(b, w, wanted, d)
    ensures DiscoveredFrom(b, w, wanted + [c], Discover(d, b.modes, w, c))
  {
    PlanStable(b, w, wanted, d, c);
    RowPlanStep(b, w, wanted, d.books.rows, c);
    JobPlanStep(b, w, wanted, d.imports, d.downloads, c);
    hide RowsPlanned, JobsPlanned, ListsPlanned, AddJob;
    ListPlanStep(b, w, wanted, d.books, c, Discover(d, b.modes, w, c).books);
  }

  lemma TargetedSnoc(b: Books, w: World, wanted: seq<string>, c: string)
    ensures forall k :: Targeted(b, w, wanted + [c], k) <==>
      Targeted(b, w, wanted, k) || (Target(FirstPlan(b, w, c), c).Some? && Target(FirstPlan(b, w, c), c).value.0 == k)
  {
    hide PlanFor;
  }

  lemma {:induction false} DiscoverAllClosed(b: Books, w: World, wanted: seq<string>)
    ensures DiscoveredFrom(b, w, wanted, DiscoverAll(b, w, wanted))
  {
    hide Discover, PlanFor;
    if wanted != [] {
      var n := |wanted| - 1;
      assert wanted == wanted[..n] + [wanted[n]];
      DiscoverAllClosed(b, w, wanted[..n]);
      DiscoverStep(b, w, wanted[..n], DiscoverAll(b, w, wanted[..n]), wanted[n]);
    }
  }

  // ---- The whole run ---------------------------------------------------------------------------------

  datatype Verdict =
    | Absent
    | Processed(key: RowKey)
    | SkippedCompleted(key: RowKey)
    | Blocked(key: RowKey)
    | FailedAt(key: RowKey)
    | StoppedAt(key: RowKey)

  function JobVerdict(w: World, j: Job): Verdict {
    match OutcomeOf(w, j)
    case Imported => Processed(j.key)
    case ImportError => FailedAt(j.key)
    case Stopped => StoppedAt(j.key)
  }

  /** What becomes of a wanted collection, from the initial books and the outside world alone. */
  function VerdictOf(b: Books, w: World, c: string): Verdict {
    match FirstPlan(b, w, c)
    case NoRelease => Absent
    case Skip(id) => SkippedCompleted(RowKey(c, id))
    case Block(id) => Blocked(RowKey(c, id))
    case Local(id) => JobVerdict(w, Job(RowKey(c, id), true))
    case Fetch(id) => JobVerdict(w, Job(RowKey(c, id), false))
  }

  /** The summary lists `c` under its verdict and nowhere else, and the row and mode agree. */
  ghost predicate Reported(b: Books, r: Books, c: string, v: Verdict) {
    && (forall k: RowKey :: k.collection == c ==> (k in r.processed <==> v == Processed(k)))
    && (c in r.skipped <==> v.SkippedCompleted?)
    && (forall k: RowKey :: k.collection == c ==> (k in r.blocked <==> v == Blocked(k)))
    && (c in r.failed <==> v.FailedAt?)
    && (v.Processed? || v.SkippedCompleted? ==> v.key in r.rows && r.rows[v.key] == Completed)
    && (v.Blocked? ==> v.key in r.rows && r.rows[v.key] == BlockedStorage)
    && (v.FailedAt? ==> v.key in r.rows && r.rows[v.key] == Failed)
    && (if v.Processed? then c in r.modes && r.modes[c].mode == Auto && r.modes[c].lastImported == Some(v.key.identifier)
        else (c in r.modes <==> c in b.modes) && (c in b.modes ==> r.modes[c] == b.modes[c]))
  }

  /** Rows that no verdict names keep their status. */
  ghost predicate OthersUntouched(b: Books, w: World, wanted: seq<string>, r: Books) {
    forall k :: k in b.rows && !Targeted(b, w, wanted, k) ==> k in r.rows && r.rows[k] == b.rows[k]
  }

  /** The two job lists of a run, in any order. */
  ghost predicate JobsOf(b: Books, w: World, wanted: seq<string>, jobs: seq<Job>) {
    forall j :: j in jobs <==>
      j.key.collection in wanted
      && FirstPlan(b, w, j.key.collection) == if j.local then Local(j.key.identifier) else Fetch(j.key.identifier)
  }

  /** Discovery turns `k` into a job whose outcome is `o`. */
  predicate PlannedWith(b: Books, w: World, wanted: seq<string>, k: RowKey, o: ImportOutcome) {
    && k.collection in wanted
    && var p := FirstPlan(b, w, k.collection);
       || (p == Local(k.identifier) && OutcomeOf(w, Job(k, true)) == o)
       || (p == Fetch(k.identifier) && OutcomeOf(w, Job(k, false)) == o)
  }

  lemma JobOfCollection(b: Books, w: World, wanted: seq<string>, jobs: seq<Job>, k: RowKey, o: ImportOutcome)
    requires JobsOf(b, w, wanted, jobs)
    ensures k in KeysWith(w, jobs, o) <==> PlannedWith(b, w, wanted, k, o)
  {
    hide OutcomeOf, FirstPlan;
    if k in KeysWith(w, jobs, o) {
      var j :| j in jobs && OutcomeOf(w, j) == o && j.key == k;
      assert j == Job(k, j.local);
    }
    if k.collection in wanted {
      var p := FirstPlan(b, w, k.collection);
      assert p == Local(k.identifier) ==> Job(k, true) in jobs;
      assert p == Fetch(k.identifier) ==> Job(k, false) in jobs;
    }
  }

  lemma JobKeys(b: Books, w: World, wanted: seq<string>, jobs: seq<Job>, k: RowKey)
    requires JobsOf(b, w, wanted, jobs)
    ensures k in Keys(jobs) <==> exists o :: PlannedWith(b, w, wanted, k, o)
  {
    hide FirstPlan, OutcomeOf;
    if k in Keys(jobs) {
      var j :| j in jobs && j.key == k;
      assert j == Job(k, j.local) && PlannedWith(b, w, wanted, k, OutcomeOf(w, j));
    }
    if k.collection in wanted {
      var p := FirstPlan(b, w, k.collection);
      assert p == Local(k.identifier) ==> Job(k, true) in jobs;
      assert p == Fetch(k.identifier) ==> Job(k, false) in jobs;
    }
  }

  ghost predicate EmptyLists(b: Books) {
    b.processed == [] && b.skipped == [] && b.blocked == [] && b.failed == []
  }

  lemma ReportedLists(b: Books, w: World, wanted: seq<string>, ended: seq<string>, m: Books, jobs: seq<Job>, r: Books, c: string)
    requires EmptyLists(b) && ListsPlanned(b, w, wanted, m) && JobsOf(b, w, ended, jobs) && SettledBy(m, w, jobs, r)
    requires c in wanted && c in ended
    ensures var v := VerdictOf(b, w, c);
            && (forall k: RowKey :: k.collection == c ==> (k in r.processed <==> v == Processed(k)))
            && (c in r.skipped <==> v.SkippedCompleted?)
            && (forall k: RowKey :: k.collection == c ==> (k in r.blocked <==> v == Blocked(k)))
            && (c in r.failed <==> v.FailedAt?)
  {
    hide OutcomeOf, FirstPlan, RowsSettled, ModesSettled;
    var v := VerdictOf(b, w, c);
    forall k: RowKey | k.collection == c ensures k in r.processed <==> v == Processed(k) {
      assert k in r.processed <==> k in Elements(r.processed);
      JobOfCollection(b, w, ended, jobs, k, Imported);
    }
    forall k: RowKey | k.collection == c ensures k in KeysWith(w, jobs, ImportError) <==> v == FailedAt(k) {
      JobOfCollection(b, w, ended, jobs, k, ImportError);
    }
    assert c in r.failed <==> c in Elements(r.failed);
    assert v.FailedAt? ==> v.key.collection == c;
  }

  lemma ReportedMode(b: Books, w: World, wanted: seq<string>, jobs: seq<Job>, r: Modes, c: string)
    requires JobsOf(b, w, wanted, jobs) && ModesSettled(b.modes, KeysWith(w, jobs, Imported), r)
    requires c in wanted
    ensures var v := VerdictOf(b, w, c);
            if v.Processed? then c in r && r[c] == ModeFor(v.key)
            else (c in r <==> c in b.modes) && (c in b.modes ==> r[c] == b.modes[c])
  {
    hide OutcomeOf, FirstPlan, ModeFor;
    var v := VerdictOf(b, w, c);
    forall k: RowKey | k.collection == c ensures k in KeysWith(w, jobs, Imported) <==> v == Processed(k) {
      JobOfCollection(b, w, wanted, jobs, k, Imported);
    }
    assert v.Processed? ==> v.key.collection == c;
  }

  lemma ReportedRow(b: Books, w: World, wanted: seq<string>, ended: seq<string>, m: Rows, jobs: seq<Job>, r: Rows, c: string)
    requires RowsPlanned(b, w, wanted, m) && JobsOf(b, w, ended, jobs) && RowsSettled(m, w, jobs, r)
    requires c in wanted && c in ended
    ensures var v := VerdictOf(b, w, c);
            && (v.Processed? || v.SkippedCompleted? ==> v.key in r && r[v.key] == Completed)
            && (v.Blocked? ==> v.key in r && r[v.key] == BlockedStorage)
            && (v.FailedAt? ==> v.key in r && r[v.key] == Failed)
  {
    var p, v := FirstPlan(b, w, c), VerdictOf(b, w, c);
    SkipMeansCompleted(b, w, c);
    hide OutcomeOf, FirstPlan, RowsPlanned, RowsSettled, JobsOf;
    match p {
      case NoRelease =>
      case Skip(id) =>
        UnrunRow(b, w, wanted, ended, m, jobs, r, c);
      case Block(id) =>
        UnrunRow(b, w, wanted, ended, m, jobs, r, c);
      case Local(id) =>
        JobRow(b, w, ended, m, jobs, r, Job(RowKey(c, id), true));
      case Fetch(id) =>
        JobRow(b, w, ended, m, jobs, r, Job(RowKey(c, id), false));
    }
  }

  lemma JobRow(b: Books, w: World, ended: seq<string>, m: Rows, jobs: seq<Job>, r: Rows, j: Job)
    requires JobsOf(b, w, ended, jobs) && RowsSettled(m, w, jobs, r)
    requires j.key.collection in ended
    requires FirstPlan(b, w, j.key.collection) == if j.local then Local(j.key.identifier) else Fetch(j.key.identifier)
    ensures j.key in r && r[j.key] == StatusFor(OutcomeOf(w, j))
  {
    hide OutcomeOf, FirstPlan;
    assert j in jobs;
    assert j.key in Keys(jobs);
  }

  /** The row of a collection that is skipped or blocked. */
  lemma UnrunRow(b: Books, w: World, wanted: seq<string>, ended: seq<string>, m: Rows, jobs: seq<Job>, r: Rows, c: string)
    requires RowsPlanned(b, w, wanted, m) && JobsOf(b, w, ended, jobs) && RowsSettled(m, w, jobs, r)
    requires c in wanted && (FirstPlan(b, w, c).Skip? || FirstPlan(b, w, c).Block?)
    ensures var p := FirstPlan(b, w, c);
            var k := RowKey(c, p.identifier);
            (p.Skip? && k in b.rows ==> k in r && r[k] == b.rows[k]) && (p.Block? ==> k in r && r[k] == BlockedStorage)
  {
    var p := FirstPlan(b, w, c);
    var k := RowKey(c, p.identifier);
    hide OutcomeOf, FirstPlan;
    JobKeys(b, w, ended, jobs, k);
    hide JobsOf;
    if p.Skip? {
      assert !Targeted(b, w, wanted, k);
    } else {
      assert Targeted(b, w, wanted, k);
    }
  }

  lemma SkipMeansCompleted(b: Books, w: World, c: string)
    ensures var p := FirstPlan(b, w, c);
            p.Skip? ==> RowKey(c, p.identifier) in b.rows && b.rows[RowKey(c, p.identifier)] == Completed
  {
  }

  lemma OthersStay(b: Books, w: World, wanted: seq<string>, m: Rows, jobs: seq<Job>, r: Books)
    requires RowsPlanned(b, w, wanted, m) && JobsOf(b, w, wanted, jobs) && RowsSettled(m, w, jobs, r.rows)
    ensures OthersUntouched(b, w, wanted, r)
  {
    hide FirstPlan, RowsPlanned, RowsSettled, JobsOf, Targeted;
    forall k | k in b.rows && !Targeted(b, w, wanted, k) ensures k in r.rows && r.rows[k] == b.rows[k] {
      OtherStays(b, w, wanted, m, jobs, r.rows, k);
    }
  }

  lemma OtherStays(b: Books, w: World, wanted: seq<string>, m: Rows, jobs: seq<Job>, r: Rows, k: RowKey)
    requires RowsPlanned(b, w, wanted, m) && JobsOf(b, w, wanted, jobs) && RowsSettled(m, w, jobs, r)
    requires k in b.rows && !Targeted(b, w, wanted, k)
    ensures k in r && r[k] == b.rows[k]
  {
    hide FirstPlan, OutcomeOf;
    JobKeys(b, w, wanted, jobs, k);
    hide JobsOf;
  }

  /** A run that returned: every wanted collection has exactly one verdict, and nothing else changed. */
  ghost predicate Partitioned(b: Books, w: World, wanted: seq<string>, r: Books) {
    (forall c :: c in wanted ==> Reported(b, r, c, VerdictOf(b, w, c)) && !VerdictOf(b, w, c).StoppedAt?)
    && OthersUntouched(b, w, wanted, r)
  }

  lemma {:induction false} SettleTwice(b: Books, w: World, first: seq<Job>, second: seq<Job>)
    requires !AnyStopped(w, first)
    ensures SettleAll(SettleAll(b, w, first), w, second) == SettleAll(b, w, first + second)
    ensures AnyStopped(w, first + second) <==> AnyStopped(w, second)
  {
    hide OutcomeOf, Settle;
    if second == [] {
      assert first + second == first;
    } else {
      var n := |second| - 1;
      var all := first + second;
      assert all[..|all| - 1] == first + second[..n] && all[..|all|] == all && second[..n + 1] == second;
      SettleTwice(b, w, first, second[..n]);
      SettleNext(b, w, all, |all| - 1);
      SettleNext(SettleAll(b, w, first), w, second, n);
    }
  }

  lemma RunJobsOf(b: Books, w: World, wanted: seq<string>, d: Discovery, order: seq<Job>)
    requires DiscoveredFrom(b, w, wanted, d) && Reordering(d.downloads, order)
    ensures JobsOf(b, w, wanted, d.imports + order) && OnePerCollection(d.imports + order)
  {
    hide FirstPlan, RowsPlanned, ListsPlanned;
    var jobs := d.imports + order;
    forall j ensures j in jobs <==> j in d.imports || j in order {
    }
    forall i, j | 0 <= i < j < |jobs| ensures jobs[i].key.collection != jobs[j].key.collection {
      if i < |d.imports| <= j {
        assert jobs[i] in d.imports && jobs[j] in order;
      }
    }
  }

  /** The outcome partition, for every order in which the downloads end. */
  lemma RunPartition(b: Books, w: World, wanted: seq<string>, order: seq<Job>)
    requires EmptyLists(b)
    requires var d := DiscoverAll(b, w, wanted); Reordering(d.downloads, order) && !AnyStopped(w, d.imports) && !AnyStopped(w, order)
    ensures var d := DiscoverAll(b, w, wanted);
            Partitioned(b, w, wanted, SettleAll(SettleAll(d.books, w, d.imports), w, order))
  {
    hide OutcomeOf, FirstPlan, SettleAll, DiscoverAll;
    var d := DiscoverAll(b, w, wanted);
    DiscoverAllClosed(b, w, wanted);
    RunJobsOf(b, w, wanted, d, order);
    SettleTwice(d.books, w, d.imports, order);
    var jobs := d.imports + order;
    SettleAllClosed(d.books, w, jobs);
    var r := SettleAll(d.books, w, jobs);
    OthersStay(b, w, wanted, d.books.rows, jobs, r);
    hide DiscoveredFrom, SettledBy, JobsOf, Reported, VerdictOf;
    forall c | c in wanted ensures Reported(b, r, c, VerdictOf(b, w, c)) && !VerdictOf(b, w, c).StoppedAt? {
      ReportedOne(b, w, wanted, wanted, d, jobs, r, c);
    }
  }

  lemma ReportedOne(b: Books, w: World, wanted: seq<string>, ended: seq<string>, d: Discovery, jobs: seq<Job>, r: Books, c: string)
    requires EmptyLists(b) && DiscoveredFrom(b, w, wanted, d) && JobsOf(b, w, ended, jobs)
    requires SettledBy(d.books, w, jobs, r) && !AnyStopped(w, jobs) && c in wanted && c in ended
    ensures Reported(b, r, c, VerdictOf(b, w, c)) && !VerdictOf(b, w, c).StoppedAt?
  {
    hide OutcomeOf, FirstPlan, RowsPlanned, RowsSettled, JobsOf, VerdictOf, AnyStopped;
    ReportedLists(b, w, wanted, ended, d.books, jobs, r, c);
    ReportedMode(b, w, ended, jobs, r.modes, c);
    ReportedRow(b, w, wanted, ended, d.books.rows, jobs, r.rows, c);
    NotStopped(b, w, ended, jobs, c);
  }

  lemma NotStopped(b: Books, w: World, wanted: seq<string>, jobs: seq<Job>, c: string)
    requires JobsOf(b, w, wanted, jobs) && !AnyStopped(w, jobs) && c in wanted
    ensures !VerdictOf(b, w, c).StoppedAt?
  {
    hide OutcomeOf, FirstPlan;
    var p := FirstPlan(b, w, c);
    if p.Local? || p.Fetch? {
      var j := Job(RowKey(c, p.identifier), p.Local?);
      assert j in jobs;
      var i :| 0 <= i < |jobs| && jobs[i] == j;
      assert OutcomeOf(w, jobs[i]) != Stopped;
    }
  }

  // ---- Two runs ----------------------------------------------------------------------------------------

  /** A retained payload is imported once: no collection that a run processed has one to import in the next. */
  lemma RetainedOnce(b: Books, w: World, wanted: seq<string>, r: Books, c: string, next: World)
    requires Partitioned(b, w, wanted, r) && c in wanted && VerdictOf(b, w, c).Processed?
    ensures !FirstPlan(r, next, c).Local?
  {
    hide OutcomeOf, VerdictOf;
    assert Reported(b, r, c, VerdictOf(b, w, c));
    PlanIff(r.rows, r.modes, next, c, "");
    if FirstPlan(r, next, c).Local? { PlanIff(r.rows, r.modes, next, c, FirstPlan(r, next, c).identifier); }
  }

  lemma VerdictNames(b: Books, w: World, c: string)
    ensures var v := VerdictOf(b, w, c); !v.Absent? ==> v.key == RowKey(c, v.key.identifier)
  {
    hide OutcomeOf, FirstPlan;
  }

  /** A release that a run processed is skipped by the next that finds it the newest and is not forced. */
  lemma ProcessedIsSkipped(b: Books, w: World, wanted: seq<string>, r: Books, c: string, next: World)
    requires Partitioned(b, w, wanted, r) && c in wanted && VerdictOf(b, w, c).Processed?
    requires !next.force && c in next.releases && next.releases[c] == VerdictOf(b, w, c).key.identifier
    ensures FirstPlan(r, next, c) == Skip(next.releases[c])
  {
    hide OutcomeOf, VerdictOf;
    VerdictNames(b, w, c);
    assert Reported(b, r, c, VerdictOf(b, w, c));
    PlanIff(r.rows, r.modes, next, c, next.releases[c]);
  }

  /** A failed release is tried again. */
  lemma FailedIsRetried(b: Books, w: World, wanted: seq<string>, r: Books, c: string, next: World)
    requires Partitioned(b, w, wanted, r) && c in wanted && VerdictOf(b, w, c).FailedAt?
    requires c in next.releases && next.releases[c] == VerdictOf(b, w, c).key.identifier && c !in next.refused
    ensures FirstPlan(r, next, c).Local? || FirstPlan(r, next, c) == Fetch(next.releases[c])
  {
    hide OutcomeOf, VerdictOf;
    VerdictNames(b, w, c);
    assert Reported(b, r, c, VerdictOf(b, w, c));
    PlanIff(r.rows, r.modes, next, c, next.releases[c]);
  }

  // ---- A run that is stopped -------------------------------------------------------------------------

  /** Discovery made `j` a job of this run. */
  ghost predicate Planned(b: Books, w: World, wanted: seq<string>, j: Job) {
    && j.key.collection in wanted
    && FirstPlan(b, w, j.key.collection) == if j.local then Local(j.key.identifier) else Fetch(j.key.identifier)
  }

  /** The jobs `done` have ended, `j` was stopped, and nothing else happened after discovery. */
  ghost predicate CutShort(b: Books, w: World, wanted: seq<string>, done: seq<Job>, j: Job, r: Books) {
    && (forall i :: i in done ==> Planned(b, w, wanted, i)) && Planned(b, w, wanted, j)
    && OnePerCollection(done + [j]) && !AnyStopped(w, done) && OutcomeOf(w, j) == Stopped
    && r == Settle(SettleAll(DiscoverAll(b, w, wanted).books, w, done), w, j)
  }

  /** `c` is in no list of the summary and its mode is as before; the row of its job is `status`. */
  ghost predicate Pending(b: Books, r: Books, c: string, k: RowKey, status: Status) {
    && (forall x: RowKey :: x.collection == c ==> x !in r.processed && x !in r.blocked)
    && c !in r.skipped && c !in r.failed
    && k in r.rows && r.rows[k] == status
    && (c in r.modes <==> c in b.modes) && (c in b.modes ==> r.modes[c] == b.modes[c])
  }

  predicate Ended(b: Books, w: World, done: seq<Job>, c: string) {
    match FirstPlan(b, w, c)
    case Local(id) => Job(RowKey(c, id), true) in done
    case Fetch(id) => Job(RowKey(c, id), false) in done
    case _ => true
  }

  /** What a stopped run leaves of a wanted collection. */
  ghost predicate LeftAs(b: Books, w: World, done: seq<Job>, j: Job, r: Books, c: string) {
    if c == j.key.collection then Pending(b, r, c, j.key, Discovered)
    else if Ended(b, w, done, c) then Reported(b, r, c, VerdictOf(b, w, c)) && !VerdictOf(b, w, c).StoppedAt?
    else
      match FirstPlan(b, w, c)
      case Local(id) => Pending(b, r, c, RowKey(c, id), Importing)
      case Fetch(id) => Pending(b, r, c, RowKey(c, id), Downloading)
      case _ => false
  }

  lemma EndedCollections(b: Books, w: World, wanted: seq<string>, done: seq<Job>) returns (ended: seq<string>)
    ensures forall c :: c in ended <==> c in wanted && Ended(b, w, done, c)
  {
    hide Ended;
    ended := [];
    for i := 0 to |wanted|
      invariant forall c :: c in ended <==> c in wanted[..i] && Ended(b, w, done, c)
    {
      assert wanted[..i + 1] == wanted[..i] + [wanted[i]];
      if Ended(b, w, done, wanted[i]) {
        ended := ended + [wanted[i]];
      }
    }
    assert wanted[..|wanted|] == wanted;
  }

  lemma DoneAreJobsOf(b: Books, w: World, wanted: seq<string>, ended: seq<string>, done: seq<Job>)
    requires forall i :: i in done ==> Planned(b, w, wanted, i)
    requires forall c :: c in ended <==> c in wanted && Ended(b, w, done, c)
    ensures JobsOf(b, w, ended, done)
  {
    hide FirstPlan;
    forall j: Job ensures j in done <==> Planned(b, w, ended, j) {
      var c := j.key.collection;
      assert j == Job(RowKey(c, j.key.identifier), j.local);
    }
  }

  lemma NotYetRun(b: Books, w: World, wanted: seq<string>, m: Books, done: seq<Job>, r: Books, j: Job)
    requires EmptyLists(b) && RowsPlanned(b, w, wanted, m.rows) && ListsPlanned(b, w, wanted, m) && SettledBy(m, w, done, r)
    requires Planned(b, w, wanted, j) && forall i :: i in done ==> i.key.collection != j.key.collection
    ensures Pending(b, r, j.key.collection, j.key, if j.local then Importing else Downloading)
  {
    hide OutcomeOf, FirstPlan, RowsPlanned, ListsPlanned, RowsSettled, ModesSettled, Planned;
    NotYetListed(b, w, wanted, m, done, r, j);
    RowNotYetRun(b, w, wanted, m.rows, done, r.rows, j);
    ModeNotYetRun(w, m.modes, done, r.modes, j.key.collection);
    hide SettledBy;
    assert m.modes == b.modes by { DiscoveryKeepsModes(b, w, wanted, m); }
  }

  lemma DiscoveryKeepsModes(b: Books, w: World, wanted: seq<string>, m: Books)
    requires ListsPlanned(b, w, wanted, m)
    ensures m.modes == b.modes
  {
    hide FirstPlan;
  }

  lemma OtherCollections(w: World, done: seq<Job>, c: string, o: ImportOutcome)
    requires forall i :: i in done ==> i.key.collection != c
    ensures c !in Names(KeysWith(w, done, o))
    ensures forall x: RowKey :: x.collection == c ==> x !in KeysWith(w, done, o) && x !in Keys(done)
  {
    hide OutcomeOf;
  }

  lemma NotYetListed(b: Books, w: World, wanted: seq<string>, m: Books, done: seq<Job>, r: Books, j: Job)
    requires EmptyLists(b) && ListsPlanned(b, w, wanted, m) && SettledBy(m, w, done, r)
    requires Planned(b, w, wanted, j) && forall i :: i in done ==> i.key.collection != j.key.collection
    ensures var c := j.key.collection;
            && (forall x: RowKey :: x.collection == c ==> x !in r.processed && x !in r.blocked)
            && c !in r.skipped && c !in r.failed
  {
    hide OutcomeOf, FirstPlan, RowsSettled, ModesSettled;
    var c := j.key.collection;
    OtherCollections(w, done, c, Imported);
    OtherCollections(w, done, c, ImportError);
    hide KeysWith, Keys, Names;
    forall x: RowKey | x.collection == c ensures x !in r.processed && x !in r.blocked {
      assert x in r.processed ==> x in Elements(r.processed);
    }
    assert c in r.failed ==> c in Elements(r.failed);
  }

  lemma RowNotYetRun(b: Books, w: World, wanted: seq<string>, m: Rows, done: seq<Job>, r: Rows, j: Job)
    requires RowsPlanned(b, w, wanted, m) && RowsSettled(m, w, done, r)
    requires Planned(b, w, wanted, j) && forall i :: i in done ==> i.key.collection != j.key.collection
    ensures j.key in r && r[j.key] == if j.local then Importing else Downloading
  {
    hide OutcomeOf, FirstPlan;
    OtherCollections(w, done, j.key.collection, Imported);
    assert Targeted(b, w, wanted, j.key);
  }

  lemma ModeNotYetRun(w: World, m: Modes, done: seq<Job>, r: Modes, c: string)
    requires ModesSettled(m, KeysWith(w, done, Imported), r)
    requires forall i :: i in done ==> i.key.collection != c
    ensures (c in r <==> c in m) && (c in m ==> r[c] == m[c])
  {
    OtherCollections(w, done, c, Imported);
    hide OutcomeOf, KeysWith;
  }

  /** A stopped run, collection by collection: ended, stopped, or still where discovery put it. */
  lemma StoppedRun(b: Books, w: World, wanted: seq<string>, done: seq<Job>, j: Job, r: Books, c: string)
    requires EmptyLists(b) && CutShort(b, w, wanted, done, j, r) && c in wanted
    ensures LeftAs(b, w, done, j, r, c)
  {
    hide FirstPlan, SettleAll, DiscoverAll, OnePerCollection, Reported, VerdictOf, SettledBy, DiscoveredFrom, AnyStopped, OutcomeOf, Ended, Pending, Planned;
    var d := DiscoverAll(b, w, wanted);
    DiscoverAllClosed(b, w, wanted);
    ApartFrom(done, j);
    SettleAllClosed(d.books, w, done);
    var m := SettleAll(d.books, w, done);
    StoppedBooks(m, w, j);
    var ended := EndedCollections(b, w, wanted, done);
    DoneAreJobsOf(b, w, wanted, ended, done);
    if c == j.key.collection {
      StoppedOne(b, w, wanted, d, done, m, j);
    } else if Ended(b, w, done, c) {
      ReportedOne(b, w, wanted, ended, d, done, m, c);
      ReportedElsewhere(b, w, m, c, j.key);
    } else {
      var i := PendingJob(b, w, wanted, done, c);
      StillPending(b, w, wanted, d, done, m, i, j.key);
    }
  }

  lemma ApartFrom(done: seq<Job>, j: Job)
    requires OnePerCollection(done + [j])
    ensures OnePerCollection(done) && forall i :: i in done ==> i.key.collection != j.key.collection
  {
    var all := done + [j];
    assert all[|done|] == j && forall i :: 0 <= i < |done| ==> all[i] == done[i];
  }

  lemma StoppedBooks(m: Books, w: World, j: Job)
    requires OutcomeOf(w, j) == Stopped
    ensures Settle(m, w, j) == m.(rows := m.rows[j.key := Discovered])
  {
  }

  lemma StoppedOne(b: Books, w: World, wanted: seq<string>, d: Discovery, done: seq<Job>, m: Books, j: Job)
    requires EmptyLists(b) && DiscoveredFrom(b, w, wanted, d) && SettledBy(d.books, w, done, m)
    requires Planned(b, w, wanted, j) && forall i :: i in done ==> i.key.collection != j.key.collection
    ensures Pending(b, m.(rows := m.rows[j.key := Discovered]), j.key.collection, j.key, Discovered)
  {
    hide FirstPlan, SettledBy, RowsPlanned, ListsPlanned, JobsPlanned, EmptyLists, Planned;
    NotYetRun(b, w, wanted, d.books, done, m, j);
  }

  lemma StillPending(b: Books, w: World, wanted: seq<string>, d: Discovery, done: seq<Job>, m: Books, i: Job, k: RowKey)
    requires EmptyLists(b) && DiscoveredFrom(b, w, wanted, d) && SettledBy(d.books, w, done, m)
    requires Planned(b, w, wanted, i) && k.collection != i.key.collection
    requires forall x :: x in done ==> x.key.collection != i.key.collection
    ensures Pending(b, m.(rows := m.rows[k := Discovered]), i.key.collection, i.key, if i.local then Importing else Downloading)
  {
    hide FirstPlan, SettledBy, RowsPlanned, ListsPlanned, JobsPlanned, EmptyLists, Planned;
    NotYetRun(b, w, wanted, d.books, done, m, i);
  }

  /** The job of a collection that has not ended. */
  lemma PendingJob(b: Books, w: World, wanted: seq<string>, done: seq<Job>, c: string) returns (i: Job)
    requires c in wanted && !Ended(b, w, done, c) && forall x :: x in done ==> Planned(b, w, wanted, x)
    ensures Planned(b, w, wanted, i) && i.key.collection == c
    ensures FirstPlan(b, w, c) == if i.local then Local(i.key.identifier) else Fetch(i.key.identifier)
    ensures i.key == RowKey(c, i.key.identifier)
    ensures forall x :: x in done ==> x.key.collection != c
  {
    hide FirstPlan;
    var p := FirstPlan(b, w, c);
    i := Job(RowKey(c, if p.Local? || p.Fetch? then p.identifier else ""), p.Local?);
    forall x | x in done ensures x.key.collection != c {
      assert Planned(b, w, wanted, x);
      assert x == Job(RowKey(x.key.collection, x.key.identifier), x.local);
    }
  }

  lemma ReportedElsewhere(b: Books, w: World, m: Books, c: string, k: RowKey)
    requires Reported(b, m, c, VerdictOf(b, w, c)) && k.collection != c
    ensures Reported(b, m.(rows := m.rows[k := Discovered]), c, VerdictOf(b, w, c))
  {
    hide FirstPlan, OutcomeOf;
  }

  /** Downloads end in some order that nobody controls. */
  method AsCompleted(jobs: seq<Job>) returns (order: seq<Job>)
    requires OnePerCollection(jobs)
    ensures Reordering(jobs, order)
  {
    order := [];
    var running := set j | j in jobs;
    while running != {}
      invariant OnePerCollection(order)
      invariant forall j :: j in jobs <==> j in order || j in running
      invariant forall i, j :: i in order && j in running ==> i.key.collection != j.key.collection
      invariant forall i, j :: i in running && j in running && i != j ==> i.key.collection != j.key.collection
      decreases running
    {
      var j :| j in running;
      order := order + [j];
      running := running - {j};
    }
  }

  /** `run_sync`: lock, discover, import what is retained, download and import the rest, unlock. */
  method RunSync(db: Database, w: World, wanted: seq<string>, session: nat, maxDownloads: int)
      returns (outcome: RunOutcome, summary: SyncRunSummary)
    modifies db
    ensures fresh(summary) && summary.db == db
    ensures outcome == LockBusy <==> old(db.lock).Some? && old(db.lock).value.session != session
    ensures outcome == LockBusy ==> db.rows == old(db.rows) && db.modes == old(db.modes)
    ensures db.lock == old(db.lock)
    ensures outcome == Returned ==>
      Partitioned(Books(old(db.rows), old(db.modes), [], [], [], []), w, wanted, summary.ToBooks())
    ensures outcome == Interrupted ==>
      exists done, j :: CutShort(Books(old(db.rows), old(db.modes), [], [], [], []), w, wanted, done, j, summary.ToBooks())
  {
    hide OutcomeOf, FirstPlan, SettleAll, DiscoverAll, Partitioned, AnyStopped, CutShort, Settle, Discover, PlanFor;
    summary := new SyncRunSummary(db, w);
    var locked := db.TryLock(session);
    if !locked { return LockBusy, summary; }
    ghost var b := summary.ToBooks();
    DiscoverAllClosed(b, w, wanted);
    var imports, downloads := summary.DiscoverReleases(wanted);
    ghost var d := DiscoverAll(b, w, wanted);
    var stopped := summary.ImportRetained(imports);
    if stopped {
      db.Unlock(session);
      assert summary.ToBooks() == SettleAll(d.books, w, imports);
      ImportsCutShort(b, w, wanted, d);
      return Interrupted, summary;
    }
    var parallel := maxDownloads > 1 && |downloads| > 1;
    var order := downloads;
    if parallel {
      order := AsCompleted(downloads);
    }
    stopped := summary.RunDownloads(order, !parallel);
    db.Unlock(session);
    if stopped {
      assert summary.ToBooks() == SettleAll(SettleAll(d.books, w, imports), w, order);
      RunCutShort(b, w, wanted, d, order);
      return Interrupted, summary;
    }
    RunPartition(b, w, wanted, order);
    outcome := Returned;
  }

  /** Where a list of jobs with a stopped one ends. */
  lemma StopSplit(b: Books, w: World, jobs: seq<Job>) returns (n: nat)
    requires AnyStopped(w, jobs)
    ensures n < |jobs| && !AnyStopped(w, jobs[..n]) && OutcomeOf(w, jobs[n]) == Stopped
    ensures SettleAll(b, w, jobs) == Settle(SettleAll(b, w, jobs[..n]), w, jobs[n])
  {
    hide OutcomeOf, Settle, SettleAll;
    n := 0;
    assert !AnyStopped(w, jobs[..0]);
    assert jobs[..|jobs|] == jobs;
    while !AnyStopped(w, jobs[..n + 1])
      invariant n < |jobs| && !AnyStopped(w, jobs[..n])
      decreases |jobs| - n
    {
      n := n + 1;
    }
    SettleNext(b, w, jobs, n);
    SettleRest(b, w, jobs, n + 1);
  }

  lemma PrefixOnePerCollection(jobs: seq<Job>, n: nat)
    requires n < |jobs| && OnePerCollection(jobs)
    ensures OnePerCollection(jobs[..n] + [jobs[n]])
  {
    assert jobs[..n] + [jobs[n]] == jobs[..n + 1];
  }

  lemma CutShortAt(b: Books, w: World, wanted: seq<string>, jobs: seq<Job>)
    requires (forall i :: i in jobs ==> Planned(b, w, wanted, i)) && OnePerCollection(jobs) && AnyStopped(w, jobs)
    ensures exists done, j :: CutShort(b, w, wanted, done, j, SettleAll(DiscoverAll(b, w, wanted).books, w, jobs))
  {
    hide OutcomeOf, SettleAll, Settle, DiscoverAll, AnyStopped, Planned, OnePerCollection;
    var n := StopSplit(DiscoverAll(b, w, wanted).books, w, jobs);
    var done, j := jobs[..n], jobs[n];
    PrefixOnePerCollection(jobs, n);
    assert forall i :: i in done ==> i in jobs;
    assert CutShort(b, w, wanted, done, j, SettleAll(DiscoverAll(b, w, wanted).books, w, jobs));
  }

  lemma JobsArePlanned(b: Books, w: World, wanted: seq<string>, jobs: seq<Job>)
    requires JobsOf(b, w, wanted, jobs)
    ensures forall i :: i in jobs ==> Planned(b, w, wanted, i)
  {
    hide FirstPlan;
  }

  lemma ImportsArePlanned(b: Books, w: World, wanted: seq<string>, d: Discovery)
    requires JobsPlanned(b, w, wanted, d.imports, d.downloads)
    ensures OnePerCollection(d.imports) && forall i :: i in d.imports ==> Planned(b, w, wanted, i)
  {
    hide FirstPlan;
  }

  /** Stopped among the retained payloads. */
  lemma ImportsCutShort(b: Books, w: World, wanted: seq<string>, d: Discovery)
    requires d == DiscoverAll(b, w, wanted) && DiscoveredFrom(b, w, wanted, d) && AnyStopped(w, d.imports)
    ensures exists done, j :: CutShort(b, w, wanted, done, j, SettleAll(d.books, w, d.imports))
  {
    hide OutcomeOf, FirstPlan, SettleAll, DiscoverAll, RowsPlanned, ListsPlanned, JobsPlanned, AnyStopped, OnePerCollection, Planned, CutShort;
    ImportsArePlanned(b, w, wanted, d);
    CutShortAt(b, w, wanted, d.imports);
  }

  /** Stopped among the downloads. */
  lemma RunCutShort(b: Books, w: World, wanted: seq<string>, d: Discovery, order: seq<Job>)
    requires d == DiscoverAll(b, w, wanted) && DiscoveredFrom(b, w, wanted, d) && Reordering(d.downloads, order)
    requires !AnyStopped(w, d.imports) && AnyStopped(w, order)
    ensures exists done, j :: CutShort(b, w, wanted, done, j, SettleAll(SettleAll(d.books, w, d.imports), w, order))
  {
    hide OutcomeOf, FirstPlan, SettleAll, DiscoverAll, RowsPlanned, ListsPlanned, JobsPlanned, AnyStopped, OnePerCollection, Planned, CutShort, JobsOf, Reordering;
    SettleTwice(d.books, w, d.imports, order);
    RunJobsOf(b, w, wanted, d, order);
    JobsArePlanned(b, w, wanted, d.imports + order);
    CutShortAt(b, w, wanted, d.imports + order);
  }
}
