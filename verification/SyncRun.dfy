/** `sync/run.py` and `sync/state.py`: one sync pass over all wanted collections. */
module SyncRun {
  import opened Options

  datatype Status = Discovered | Downloading | Importing | Validating | Completed | Failed | BlockedStorage

  /** A row of `sync_releases`. */
  datatype RowKey = RowKey(collection: string, identifier: string)

  type Rows = map<RowKey, Status>

  datatype SyncMode = Auto | ImportMode

  datatype CollectionMode = CollectionMode(mode: SyncMode, lastImported: Option<string>)

  type Modes = map<string, CollectionMode>

  // ---- What happens outside the orchestration ------------------------------------------------

  datatype Download = Complete | Partial | DownloadError

  /** `Stopped` is the `GracefulShutdown` exception. */
  datatype ImportOutcome = Imported | ImportError | Stopped

  /**
    The manifest's choice of release per collection with its torrent hash, the retained payloads, the storage guard's
    refusals, and what every download and import would come to.
    */
  datatype World = World(
    releases: map<string, string>,
    btihs: map<string, string>,
    retained: set<string>,
    refused: set<string>,
    force: bool,
    download: string -> Download,
    importing: (string, bool) -> ImportOutcome)

  // ---- The plan for one collection -------------------------------------------------------------

  datatype Plan = NoRelease | Local(identifier: string) | Skip(identifier: string) | Block(identifier: string) | Fetch(identifier: string)

  function StatusIn(rows: Rows, k: RowKey): Status {
    if k in rows then rows[k] else Discovered
  }

  predicate ImportsRetained(modes: Modes, w: World, c: string) {
    c in modes && modes[c].mode == ImportMode && Truthy(modes[c].lastImported) && c in w.retained
  }

  function PlanFor(rows: Rows, modes: Modes, w: World, c: string): Plan {
    if c !in w.releases then NoRelease
    else if ImportsRetained(modes, w, c) then Local(modes[c].lastImported.value)
    else
      var id := w.releases[c];
      if !w.force && StatusIn(rows, RowKey(c, id)) == Completed then Skip(id)
      else if c in w.refused then Block(id)
      else Fetch(id)
  }

  /**
    When a collection is planned how: a retained payload is imported again exactly in mode import, when the
    release it came from is known; otherwise the newest release is skipped when it is completed and the run is
    not forced, blocked when the storage guard refuses it, and downloaded in all other cases.
    */
  lemma PlanIff(rows: Rows, modes: Modes, w: World, c: string, id: string)
    ensures var retained := c in modes && modes[c].mode == ImportMode && modes[c].lastImported.Some?
                            && modes[c].lastImported.value != "" && c in w.retained;
            var newest := c in w.releases && w.releases[c] == id && !retained;
            var k := RowKey(c, id);
            var completed := k in rows && rows[k] == Completed;
            && (PlanFor(rows, modes, w, c) == NoRelease <==> c !in w.releases)
            && (PlanFor(rows, modes, w, c) == Local(id) <==> c in w.releases && retained && modes[c].lastImported == Some(id))
            && (PlanFor(rows, modes, w, c) == Skip(id) <==> newest && completed && !w.force)
            && (PlanFor(rows, modes, w, c) == Block(id) <==> newest && (w.force || !completed) && c in w.refused)
            && (PlanFor(rows, modes, w, c) == Fetch(id) <==> newest && (w.force || !completed) && c !in w.refused)
  {
  }

  // ---- The books of a run ------------------------------------------------------------------------

  /** Database rows and modes, and the lists of `SyncRunSummary`. */
  datatype Books = Books(
    rows: Rows,
    modes: Modes,
    processed: seq<RowKey>,
    skipped: seq<string>,
    blocked: seq<RowKey>,
    failed: seq<string>)

  /** A release to import: from the retained payload, or after a download. */
  datatype Job = Job(key: RowKey, local: bool)

  datatype Discovery = Discovery(books: Books, imports: seq<Job>, downloads: seq<Job>)

  /** Adding to a dictionary keeps the place of a key that is already there. */
  function AddJob(jobs: seq<Job>, j: Job): seq<Job> {
    if j in jobs then jobs else jobs + [j]
  }

  /** One iteration of the discovery loop. */
  function Discover(d: Discovery, modes: Modes, w: World, c: string): Discovery {
    var b := d.books;
    match PlanFor(b.rows, modes, w, c)
    case NoRelease => d
    case Local(id) =>
      var k := RowKey(c, id);
      d.(books := b.(rows := b.rows[k := Importing]), imports := AddJob(d.imports, Job(k, true)))
    case Skip(id) =>
      d.(books := b.(skipped := b.skipped + [c]))
    case Block(id) =>
      var k := RowKey(c, id);
      d.(books := b.(rows := b.rows[k := BlockedStorage], blocked := b.blocked + [k]))
    case Fetch(id) =>
      var k := RowKey(c, id);
      d.(books := b.(rows := b.rows[k := Downloading]), downloads := AddJob(d.downloads, Job(k, false)))
  }

  /** The discovery of one collection, branch by branch. */
  lemma DiscoverCases(d: Discovery, modes: Modes, w: World, c: string)
    ensures c !in w.releases ==> Discover(d, modes, w, c) == d
    ensures c in w.releases && ImportsRetained(modes, w, c) ==>
      var k := RowKey(c, modes[c].lastImported.value);
      Discover(d, modes, w, c)
      == d.(books := d.books.(rows := d.books.rows[k := Importing]), imports := AddJob(d.imports, Job(k, true)))
    ensures c in w.releases && !ImportsRetained(modes, w, c) ==>
      var k := RowKey(c, w.releases[c]);
      Discover(d, modes, w, c)
      == if !w.force && StatusIn(d.books.rows, k) == Completed then d.(books := d.books.(skipped := d.books.skipped + [c]))
         else if c in w.refused then
           d.(books := d.books.(rows := d.books.rows[k := BlockedStorage], blocked := d.books.blocked + [k]))
         else
           d.(books := d.books.(rows := d.books.rows[k := Downloading]), downloads := AddJob(d.downloads, Job(k, false)))
  {
    hide ImportsRetained, StatusIn, AddJob;
  }

  function DiscoverAll(b: Books, w: World, wanted: seq<string>): Discovery {
    if wanted == [] then Discovery(b, [], [])
    else Discover(DiscoverAll(b, w, wanted[..|wanted| - 1]), b.modes, w, wanted[|wanted| - 1])
  }

  /** What a job comes to; a failed download counts like a failed import. */
  function OutcomeOf(w: World, j: Job): ImportOutcome {
    var c := j.key.collection;
    if j.local then w.importing(c, false)
    else
      match w.download(c)
      case Complete => w.importing(c, false)
      case Partial => w.importing(c, true)
      case DownloadError => ImportError
  }

  /** A complete download is imported strictly, a partial one resiliently, and one that failed fails the release. */
  lemma OutcomeCases(w: World, j: Job, o: ImportOutcome)
    ensures var c := j.key.collection;
            OutcomeOf(w, j) == o <==>
              || ((j.local || w.download(c) == Complete) && w.importing(c, false) == o)
              || (!j.local && w.download(c) == Partial && w.importing(c, true) == o)
              || (!j.local && w.download(c) == DownloadError && o == ImportError)
  {
  }

  /** The books after one job. */
  function Settle(b: Books, w: World, j: Job): Books {
    match OutcomeOf(w, j)
    case Imported =>
      b.(rows := b.rows[j.key := Completed],
         modes := b.modes[j.key.collection := CollectionMode(Auto, Some(j.key.identifier))],
         processed := b.processed + [j.key])
    case ImportError =>
      b.(rows := b.rows[j.key := Failed], failed := b.failed + [j.key.collection])
    case Stopped =>
      b.(rows := b.rows[j.key := Discovered])
  }

  /** Jobs in order, up to and including the first one that is stopped. */
  function SettleAll(b: Books, w: World, jobs: seq<Job>): Books {
    if jobs == [] then b
    else
      var front, j := jobs[..|jobs| - 1], jobs[|jobs| - 1];
      if AnyStopped(w, front) then SettleAll(b, w, front) else Settle(SettleAll(b, w, front), w, j)
  }

  predicate AnyStopped(w: World, jobs: seq<Job>) {
    exists i :: 0 <= i < |jobs| && OutcomeOf(w, jobs[i]) == Stopped
  }

  // ---- The code --------------------------------------------------------------------------------------

  /** A session that holds the advisory lock, and how many more times than once it took it. */
  datatype Holder = Holder(session: nat, again: nat)

  class Database {
    var rows: Rows
    var modes: Modes
    var lock: Option<Holder>
    /** The torrent hash of each release row that has one. */
    var btihs: map<RowKey, string>

    constructor (rows: Rows, modes: Modes, btihs: map<RowKey, string>)
      ensures this.rows == rows && this.modes == modes && this.btihs == btihs && lock.None?
    {
      this.rows, this.modes, this.btihs, lock := rows, modes, btihs, None;
    }

    /**
      `ensure_release`; an unknown release is inserted as `discovered` with the given hash, a known one keeps
      its status, and its hash unless there is a new one.
      */
    method EnsureRelease(k: RowKey, btih: Option<string>) returns (status: Status)
      modifies this`rows, this`btihs
      ensures status == StatusIn(old(rows), k) && rows == old(rows)[k := status]
      ensures btihs == if btih.Some? then old(btihs)[k := btih.value] else if k in old(rows) then old(btihs) else old(btihs) - {k}
    {
      if k !in rows {
        rows := rows[k := Discovered];
        btihs := btihs - {k};
      }
      if btih.Some? {
        btihs := btihs[k := btih.value];
      }
      status := rows[k];
    }

    method SetStatus(k: RowKey, status: Status)
      modifies this`rows
      ensures rows == old(rows)[k := status]
    {
      rows := rows[k := status];
    }

    /** `record_imported_release` */
    method RecordImported(k: RowKey)
      modifies this`modes
      ensures modes == old(modes)[k.collection := CollectionMode(Auto, Some(k.identifier))]
    {
      modes := modes[k.collection := CollectionMode(Auto, Some(k.identifier))];
    }

    /** `pg_try_advisory_lock`: free for the session that already holds it. */
    method TryLock(session: nat) returns (ok: bool)
      modifies this`lock
      ensures ok <==> old(lock).None? || old(lock).value.session == session
      ensures !ok ==> lock == old(lock)
      ensures ok ==> lock == Some(Holder(session, if old(lock).None? then 0 else old(lock).value.again + 1))
    {
      if lock.None? {
        lock := Some(Holder(session, 0));
        return true;
      }
      ok := lock.value.session == session;
      if ok {
        lock := Some(Holder(session, lock.value.again + 1));
      }
    }

    /** `pg_advisory_unlock` undoes one acquisition. */
    method Unlock(session: nat)
      modifies this`lock
      ensures lock ==
        if old(lock).None? || old(lock).value.session != session then old(lock)
        else if old(lock).value.again == 0 then None
        else Some(Holder(session, old(lock).value.again - 1))
    {
      if lock.Some? && lock.value.session == session {
        lock := if lock.value.again == 0 then None else Some(Holder(session, lock.value.again - 1));
      }
    }
  }

  datatype RunOutcome = LockBusy | Interrupted | Returned

  class SyncRunSummary {
    const db: Database
    const w: World
    var processed: seq<RowKey>
    var skipped: seq<string>
    var blocked: seq<RowKey>
    var failed: seq<string>

    constructor (db: Database, w: World)
      ensures this.db == db && this.w == w
      ensures processed == [] && skipped == [] && blocked == [] && failed == []
    {
      this.db, this.w := db, w;
      processed, skipped, blocked, failed := [], [], [], [];
    }

    function ToBooks(): Books
      reads this, db
    {
      Books(db.rows, db.modes, processed, skipped, blocked, failed)
    }

    /** `_import_payload` */
    method ImportPayload(k: RowKey, outcome: ImportOutcome) returns (stopped: bool)
      modifies this`processed, this`failed, db`rows, db`modes
      ensures stopped <==> outcome == Stopped
      ensures skipped == old(skipped) && blocked == old(blocked)
      ensures forall j: Job :: j.key == k && OutcomeOf(w, j) == outcome ==> ToBooks() == Settle(old(ToBooks()), w, j)
    {
      hide OutcomeOf;
      stopped := false;
      ghost var rows := db.rows;
      OverwrittenRow(rows, k, Importing, Failed);
      OverwrittenRow(rows, k, Importing, Discovered);
      OverwrittenRow(rows, k, Importing, Validating);
      OverwrittenRow(rows, k, Validating, Completed);
      db.SetStatus(k, Importing);
      match outcome {
        case Imported =>
          db.SetStatus(k, Validating);
          db.SetStatus(k, Completed);
          db.RecordImported(k);
          processed := processed + [k];
        case ImportError =>
          db.SetStatus(k, Failed);
          failed := failed + [k.collection];
        case Stopped =>
          db.SetStatus(k, Discovered);
          stopped := true;
      }
    }

    /** One download that has ended, and the import that follows it. */
    method FinishDownload(j: Job) returns (stopped: bool)
      requires !j.local
      modifies this`processed, this`failed, db`rows, db`modes
      ensures stopped <==> OutcomeOf(w, j) == Stopped
      ensures ToBooks() == Settle(old(ToBooks()), w, j)
    {
      var c := j.key.collection;
      match w.download(c) {
        case Complete =>
          stopped := ImportPayload(j.key, w.importing(c, false));
        case Partial =>
          stopped := ImportPayload(j.key, w.importing(c, true));
        case DownloadError =>
          db.SetStatus(j.key, Failed);
          failed := failed + [c];
          stopped := false;
      }
    }

    /** `_download_sequential` in dictionary order, or the `as_completed` loop in the order downloads end. */
    method RunDownloads(jobs: seq<Job>, sequential: bool) returns (stopped: bool)
      requires forall i :: 0 <= i < |jobs| ==> !jobs[i].local
      modifies this`processed, this`failed, db`rows, db`modes
      ensures stopped <==> AnyStopped(w, jobs)
      ensures ToBooks() == SettleAll(old(ToBooks()), w, jobs)
    {
      hide OutcomeOf, Settle;
      stopped := false;
      for i := 0 to |jobs|
        invariant !AnyStopped(w, jobs[..i])
        invariant ToBooks() == SettleAll(old(ToBooks()), w, jobs[..i])
      {
        ghost var before := ToBooks();
        SettleNext(old(ToBooks()), w, jobs, i);
        if sequential {
          db.SetStatus(jobs[i].key, Downloading);
          StatusBeforeSettling(before, w, jobs[i], Downloading);
        }
        stopped := FinishDownload(jobs[i]);
        if stopped {
          SettleRest(old(ToBooks()), w, jobs, i + 1);
          return;
        }
      }
      assert jobs[..|jobs|] == jobs;
    }

    /** Phase 2: retained payloads are imported one by one. */
    method ImportRetained(jobs: seq<Job>) returns (stopped: bool)
      requires forall i :: 0 <= i < |jobs| ==> jobs[i].local
      modifies this`processed, this`failed, db`rows, db`modes
      ensures stopped <==> AnyStopped(w, jobs)
      ensures ToBooks() == SettleAll(old(ToBooks()), w, jobs)
    {
      hide Settle;
      stopped := false;
      for i := 0 to |jobs|
        invariant !AnyStopped(w, jobs[..i])
        invariant ToBooks() == SettleAll(old(ToBooks()), w, jobs[..i])
      {
        SettleNext(old(ToBooks()), w, jobs, i);
        stopped := ImportPayload(jobs[i].key, w.importing(jobs[i].key.collection, false));
        if stopped {
          SettleRest(old(ToBooks()), w, jobs, i + 1);
          return;
        }
      }
      assert jobs[..|jobs|] == jobs;
    }

    /** One collection of the discovery loop. */
    method DiscoverRelease(c: string, modes: Modes, imports: seq<Job>, downloads: seq<Job>)
        returns (imports': seq<Job>, downloads': seq<Job>)
      modifies this`skipped, this`blocked, db`rows, db`btihs
      ensures Discovery(ToBooks(), imports', downloads') == Discover(Discovery(old(ToBooks()), imports, downloads), modes, w, c)
    {
      hide Discover, AddJob;
      ghost var before := Discovery(ToBooks(), imports, downloads);
      DiscoverCases(before, modes, w, c);
      imports', downloads' := imports, downloads;
      if c !in w.releases {
        return;
      }
      if ImportsRetained(modes, w, c) {
        var k := RowKey(c, modes[c].lastImported.value);
        var found := db.EnsureRelease(k, None);
        db.SetStatus(k, Importing);
        OverwrittenRow(before.books.rows, k, found, Importing);
        imports' := AddJob(imports, Job(k, true));
        return;
      }
      var k := RowKey(c, w.releases[c]);
      var status := db.EnsureRelease(k, if c in w.btihs then Some(w.btihs[c]) else None);
      if !w.force && status == Completed {
        assert db.rows == old(db.rows);
        skipped := skipped + [c];
      } else if c in w.refused {
        db.SetStatus(k, BlockedStorage);
        OverwrittenRow(before.books.rows, k, status, BlockedStorage);
        blocked := blocked + [k];
      } else {
        db.SetStatus(k, Downloading);
        OverwrittenRow(before.books.rows, k, status, Downloading);
        downloads' := AddJob(downloads, Job(k, false));
      }
    }

    /** Phase 1: the discovery loop. */
    method DiscoverReleases(wanted: seq<string>) returns (imports: seq<Job>, downloads: seq<Job>)
      modifies this`skipped, this`blocked, db`rows, db`btihs
      ensures Discovery(ToBooks(), imports, downloads) == DiscoverAll(old(ToBooks()), w, wanted)
    {
      hide Discover;
      var modes := db.modes;
      imports, downloads := [], [];
      for i := 0 to |wanted|
        invariant Discovery(ToBooks(), imports, downloads) == DiscoverAll(old(ToBooks()), w, wanted[..i])
      {
        assert wanted[..i + 1][..i] == wanted[..i];
        imports, downloads := DiscoverRelease(wanted[i], modes, imports, downloads);
      }
      assert wanted[..|wanted|] == wanted;
    }
  }

  /** A status that is overwritten at once leaves no trace. */
  lemma StatusBeforeSettling(b: Books, w: World, j: Job, status: Status)
    ensures Settle(b.(rows := b.rows[j.key := status]), w, j) == Settle(b, w, j)
  {
    hide OutcomeOf;
    OverwrittenRow(b.rows, j.key, status, Completed);
    OverwrittenRow(b.rows, j.key, status, Failed);
    OverwrittenRow(b.rows, j.key, status, Discovered);
  }

  lemma OverwrittenRow(rows: Rows, k: RowKey, first: Status, second: Status)
    ensures rows[k := first][k := second] == rows[k := second]
  {
  }

  lemma SettleNext(b: Books, w: World, jobs: seq<Job>, i: nat)
    requires i < |jobs|
    ensures AnyStopped(w, jobs[..i + 1]) <==> AnyStopped(w, jobs[..i]) || OutcomeOf(w, jobs[i]) == Stopped
    ensures !AnyStopped(w, jobs[..i]) ==>
      SettleAll(b, w, jobs[..i + 1]) == Settle(SettleAll(b, w, jobs[..i]), w, jobs[i])
  {
    hide OutcomeOf, Settle;
    var longer := jobs[..i + 1];
    assert longer[..i] == jobs[..i] && longer[i] == jobs[i];
    assert forall m :: 0 <= m < i ==> longer[m] == jobs[..i][m];
    if OutcomeOf(w, jobs[i]) == Stopped { assert OutcomeOf(w, longer[i]) == Stopped; }
    if AnyStopped(w, jobs[..i]) {
      var m :| 0 <= m < i && OutcomeOf(w, jobs[..i][m]) == Stopped;
      assert OutcomeOf(w, longer[m]) == Stopped;
    }
  }

  /** Nothing happens after a stop. */
  lemma {:induction false} SettleRest(b: Books, w: World, jobs: seq<Job>, i: nat)
    requires i <= |jobs| && AnyStopped(w, jobs[..i])
    ensures AnyStopped(w, jobs) && SettleAll(b, w, jobs) == SettleAll(b, w, jobs[..i])
    decreases |jobs| - i
  {
    hide OutcomeOf, Settle;
    if i == |jobs| {
      assert jobs[..i] == jobs;
    } else {
      SettleNext(b, w, jobs, i);
      assert jobs[..i + 1][..i] == jobs[..i];
      SettleRest(b, w, jobs, i + 1);
    }
  }
}
