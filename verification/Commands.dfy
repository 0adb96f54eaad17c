/** Pause, resume and run_now: the command queue shared by the API and the sync worker. */
module Commands {
  import opened Options

  datatype Command = RunNow | Pause | Resume

  predicate Toggles(c: Command) {
    c != RunNow
  }

  predicate NoToggle(cs: seq<Command>) {
    forall i :: 0 <= i < |cs| ==> !Toggles(cs[i])
  }

  /** The paused state that a list of commands, oldest first, asks for. */
  function Asked(cs: seq<Command>, initially: bool): bool {
    if cs == [] then initially
    else
      var c := cs[|cs| - 1];
      if Toggles(c) then c == Pause else Asked(cs[..|cs| - 1], initially)
  }

  lemma {:induction false} AskedAppend(a: seq<Command>, b: seq<Command>, initially: bool)
    ensures Asked(a + b, initially) == Asked(b, Asked(a, initially))
    ensures NoToggle(b) ==> Asked(b, initially) == initially
  {
    if b == [] {
      assert a + b == a;
    } else {
      var front := b[..|b| - 1];
      assert (a + b)[..|a + b| - 1] == a + front;
      AskedAppend(a, front, initially);
      if NoToggle(b) { assert NoToggle(front) && !Toggles(b[|b| - 1]); }
    }
  }

  /** The last pause or resume decides; without any, nothing changes. */
  lemma {:induction false} AskedIff(cs: seq<Command>, initially: bool)
    ensures Asked(cs, initially) <==>
      || (exists i :: 0 <= i < |cs| && cs[i] == Pause && forall j :: i < j < |cs| ==> cs[j] == RunNow)
      || (initially && forall j :: 0 <= j < |cs| ==> cs[j] == RunNow)
  {
    if cs != [] {
      var n := |cs| - 1;
      var front := cs[..n];
      AskedIff(front, initially);
      assert forall j :: 0 <= j < n ==> front[j] == cs[j];
      if cs[n] == RunNow {
        if i :| 0 <= i < n && front[i] == Pause && forall j :: i < j < n ==> front[j] == RunNow {
          assert cs[i] == Pause && forall j :: i < j < |cs| ==> cs[j] == RunNow;
        }
        if i :| 0 <= i < |cs| && cs[i] == Pause && forall j :: i < j < |cs| ==> cs[j] == RunNow {
          assert front[i] == Pause && forall j :: i < j < n ==> front[j] == RunNow;
        }
      }
    }
  }

  // ---- The two tables and the poller -----------------------------------------------------

  /** `sync_commands` (pending rows, by id) and the `paused` row of `sync_control_state`. */
  class ControlStore {
    var pending: seq<Command>
    var paused: bool

    constructor ()
      ensures pending == [] && !paused
    {
      pending, paused := [], false;
    }

    /** `enqueue_command` */
    method Enqueue(c: Command)
      modifies this`pending
      ensures pending == old(pending) + [c]
    {
      pending := pending + [c];
    }

    /** `pop_pending_commands`: one transaction claims everything, oldest first. */
    method PopPending() returns (claimed: seq<Command>)
      modifies this`pending
      ensures claimed == old(pending) && pending == []
    {
      claimed := pending;
      pending := [];
    }

    /** `set_paused` */
    method SetPaused(value: bool)
      modifies this`paused
      ensures paused == value
    {
      paused := value;
    }

    /** `post_command` when nothing else touches the tables in between. */
    method PostCommand(c: Command)
      modifies this
      ensures pending == old(pending) + [c]
      ensures paused == Asked([c], old(paused))
    {
      Enqueue(c);
      assert [c][..0] == [];
      if c == Pause {
        SetPaused(true);
      } else if c == Resume {
        SetPaused(false);
      }
    }
  }

  class CommandPoller {
    var runRequested: bool
    var paused: bool
    /** The importer's shutdown flag, which a pause command raises. */
    var shutdownRequested: bool

    constructor ()
      ensures !runRequested && !paused && !shutdownRequested
    {
      runRequested, paused, shutdownRequested := false, false, false;
    }

    /** `CommandPoller.poll` with nobody else writing meanwhile. */
    method Poll(store: ControlStore)
      modifies this, store
      ensures store.pending == []
      ensures store.paused == Asked(old(store.pending), old(store.paused)) && paused == store.paused
      ensures runRequested == (old(runRequested) || RunNow in old(store.pending))
      ensures shutdownRequested == (old(shutdownRequested) || Pause in old(store.pending))
    {
      var claimed := store.PopPending();
      for i := 0 to |claimed|
        invariant store.pending == []
        invariant store.paused == Asked(claimed[..i], old(store.paused))
        invariant runRequested == (old(runRequested) || RunNow in claimed[..i])
        invariant shutdownRequested == (old(shutdownRequested) || Pause in claimed[..i])
      {
        assert claimed[..i + 1] == claimed[..i] + [claimed[i]];
        AskedAppend(claimed[..i], [claimed[i]], old(store.paused));
        assert [claimed[i]][..0] == [];
        match claimed[i] {
          case RunNow =>
            runRequested := true;
          case Pause =>
            store.SetPaused(true);
            paused := true;
            shutdownRequested := true;
          case Resume =>
            store.SetPaused(false);
            paused := false;
        }
      }
      assert claimed[..|claimed|] == claimed;
      paused := store.paused;
    }
  }

  // ---- API and worker interleaved ------------------------------------------------------------

  /**
    The shared tables, where each side stands in its operation, and the history.
    `unwritten` are requests whose command is enqueued and whose flag write is still to come; the handlers
    run concurrently, so there may be several, and they write in any order. `claimed` are popped commands
    not applied yet. `late` is the last command that a handler wrote into the flag after the worker last
    wrote it.
    */
  datatype State = State(
    queue: seq<Command>,
    flag: bool,
    unwritten: seq<Command>,
    polling: bool,
    claimed: seq<Command>,
    polled: bool,
    seenPaused: bool,
    issued: seq<Command>,
    applied: seq<Command>,
    late: Option<Command>)

  datatype Event =
    | PostEnqueues(c: Command)
    | PostWritesFlag(request: nat)
    | WorkerPops
    | WorkerApplies
    | WorkerReadsFlag

  function Initially(flag: bool): State {
    State([], flag, [], false, [], false, false, [], [], None)
  }

  predicate Enabled(s: State, e: Event) {
    match e
    case PostEnqueues(_) => true
    case PostWritesFlag(i) => i < |s.unwritten|
    case WorkerPops => !s.polling
    case WorkerApplies => s.polling && s.claimed != []
    case WorkerReadsFlag => s.polling && s.claimed == []
  }

  /** One atomic statement of either side. */
  function Next(s: State, e: Event): State
    requires Enabled(s, e)
  {
    match e
    case PostEnqueues(c) =>
      s.(queue := s.queue + [c], issued := s.issued + [c], unwritten := if Toggles(c) then s.unwritten + [c] else s.unwritten)
    case PostWritesFlag(i) =>
      s.(flag := s.unwritten[i] == Pause, late := Some(s.unwritten[i]), unwritten := s.unwritten[..i] + s.unwritten[i + 1..])
    case WorkerPops =>
      s.(polling := true, claimed := s.queue, queue := [])
    case WorkerApplies =>
      var c := s.claimed[0];
      s.(claimed := s.claimed[1..], applied := s.applied + [c],
         flag := if Toggles(c) then c == Pause else s.flag, late := if Toggles(c) then None else s.late)
    case WorkerReadsFlag =>
      s.(polling := false, polled := true, seenPaused := s.flag)
  }

  /** Any interleaving; an event that is not enabled does not happen. */
  function Execute(s: State, events: seq<Event>): State {
    if events == [] then s
    else
      var before, e := Execute(s, events[..|events| - 1]), events[|events| - 1];
      if Enabled(before, e) then Next(before, e) else before
  }

  /** Commands that the worker has not applied yet. */
  function Outstanding(s: State): seq<Command> {
    s.claimed + s.queue
  }

  ghost predicate Invariant(s: State, initially: bool) {
    && s.issued == s.applied + Outstanding(s)
    && (!s.polling ==> s.claimed == [])
    && (forall i :: 0 <= i < |s.unwritten| ==> Toggles(s.unwritten[i]))
    && (s.late.Some? ==> Toggles(s.late.value))
    && s.flag == if s.late.Some? then s.late.value == Pause else Asked(s.applied, initially)
  }

  lemma NoToggleSnoc(cs: seq<Command>, c: Command)
    ensures NoToggle(cs + [c]) <==> NoToggle(cs) && !Toggles(c)
  {
    var all := cs + [c];
    assert all[|cs|] == c && forall i :: 0 <= i < |cs| ==> all[i] == cs[i];
  }

  lemma ApplyKeepsInvariant(s: State, initially: bool)
    requires Invariant(s, initially) && Enabled(s, WorkerApplies)
    ensures Invariant(Next(s, WorkerApplies), initially)
  {
    var t, c := Next(s, WorkerApplies), s.claimed[0];
    assert s.claimed == [c] + t.claimed;
    assert Outstanding(s) == [c] + Outstanding(t);
    assert s.issued == (s.applied + [c]) + Outstanding(t);
    assert (s.applied + [c])[..|s.applied|] == s.applied;
  }

  lemma NextKeepsInvariant(s: State, e: Event, initially: bool)
    requires Invariant(s, initially) && Enabled(s, e)
    ensures Invariant(Next(s, e), initially)
  {
    match e {
      case PostEnqueues(c) => assert Outstanding(Next(s, e)) == Outstanding(s) + [c];
      case PostWritesFlag(_) =>
      case WorkerPops => assert Outstanding(Next(s, e)) == Outstanding(s);
      case WorkerApplies => ApplyKeepsInvariant(s, initially);
      case WorkerReadsFlag => assert Outstanding(s) == s.queue;
    }
  }

  lemma {:induction false} AlwaysInvariant(initially: bool, events: seq<Event>)
    ensures Invariant(Execute(Initially(initially), events), initially)
  {
    if events != [] {
      AlwaysInvariant(initially, events[..|events| - 1]);
      var before, e := Execute(Initially(initially), events[..|events| - 1]), events[|events| - 1];
      if Enabled(before, e) { NextKeepsInvariant(before, e, initially); }
    }
  }

  /**
    Pause agreement, for requests that may overlap: whenever no pause or resume is waiting for the worker,
    the flag is what the last issued one asked for exactly when no handler has written since the worker
    applied it, or the last that has asked for the same.
    */
  lemma PauseAgreementIff(initially: bool, events: seq<Event>)
    ensures var s := Execute(Initially(initially), events);
            NoToggle(Outstanding(s)) ==>
              (s.flag == Asked(s.issued, initially) <==> (s.late.Some? ==> (s.late.value == Pause) == Asked(s.issued, initially)))
  {
    AlwaysInvariant(initially, events);
    var s := Execute(Initially(initially), events);
    AskedAppend(s.applied, Outstanding(s), initially);
    AskedAppend(s.applied, Outstanding(s), Asked(s.applied, initially));
  }

  const OVERLAP: seq<Event> :=
    [PostEnqueues(Pause), PostEnqueues(Resume), PostWritesFlag(1), WorkerPops, WorkerApplies, WorkerApplies,
     WorkerReadsFlag, PostWritesFlag(0)]

  /** Two overlapping requests: the pause is enqueued first and writes last, so the flag stays up. */
  lemma OverlapDisagrees()
    ensures var s := Execute(Initially(false), OVERLAP);
            s.queue == [] && !s.polling && s.unwritten == [] && s.issued == s.applied == [Pause, Resume] && s.flag
  {
    StageReached(8);
    assert OVERLAP[..8] == OVERLAP;
  }

  lemma {:induction false} StageReached(i: nat)
    requires i <= 8
    ensures Execute(Initially(false), OVERLAP[..i]) == Stage(i)
  {
    hide Stage, Next, Enabled;
    if i == 0 {
      assert Stage(0) == Initially(false) by { FirstStage(); }
    } else {
      StageReached(i - 1);
      StageNext(i - 1);
      assert OVERLAP[..i][..i - 1] == OVERLAP[..i - 1];
    }
  }

  lemma FirstStage()
    ensures Stage(0) == Initially(false)
  {
  }

  lemma StageNext(i: nat)
    requires i < 8
    ensures Enabled(Stage(i), OVERLAP[i]) && Next(Stage(i), OVERLAP[i]) == Stage(i + 1)
  {
    if i < 3 {
      StagePosts(i);
    } else {
      StageWorks(i);
    }
  }

  lemma StagePosts(i: nat)
    requires i < 3
    ensures Enabled(Stage(i), OVERLAP[i]) && Next(Stage(i), OVERLAP[i]) == Stage(i + 1)
  {
    var pair := [Pause, Resume];
    assert [] + [Pause] == [Pause] && [Pause] + [Resume] == pair;
    assert pair[..1] + pair[2..] == [Pause];
  }

  lemma StageWorks(i: nat)
    requires 3 <= i < 8
    ensures Enabled(Stage(i), OVERLAP[i]) && Next(Stage(i), OVERLAP[i]) == Stage(i + 1)
  {
    var pair := [Pause, Resume];
    assert pair[1..] == [Resume] && [Resume][1..] == [] && [] + [Pause] == [Pause] && [Pause] + [Resume] == pair;
    assert [Pause][..0] + [Pause][1..] == [];
  }

  function Stage(i: nat): State {
    var pair := [Pause, Resume];
    if i == 0 then Initially(false)
    else if i == 1 then State([Pause], false, [Pause], false, [], false, false, [Pause], [], None)
    else if i == 2 then State(pair, false, pair, false, [], false, false, pair, [], None)
    else if i == 3 then State(pair, false, [Pause], false, [], false, false, pair, [], Some(Resume))
    else if i == 4 then State([], false, [Pause], true, pair, false, false, pair, [], Some(Resume))
    else if i == 5 then State([], true, [Pause], true, [Resume], false, false, pair, [Pause], None)
    else if i == 6 then State([], false, [Pause], true, [], false, false, pair, pair, None)
    else if i == 7 then State([], false, [Pause], false, [], true, false, pair, pair, None)
    else State([], true, [], false, [], true, false, pair, pair, Some(Pause))
  }

  /** Every command is applied exactly once, in the order issued; when idle, all have been. */
  lemma AppliedExactlyOnce(initially: bool, events: seq<Event>)
    ensures var s := Execute(Initially(initially), events);
            && s.applied <= s.issued && s.issued == s.applied + s.claimed + s.queue
            && (s.queue == [] && !s.polling ==> s.applied == s.issued)
  {
    AlwaysInvariant(initially, events);
    var s := Execute(Initially(initially), events);
    assert s.applied + s.claimed + s.queue == s.applied + (s.claimed + s.queue);
  }

  // ---- Requests one at a time ----------------------------------------------------------------

  /** No command is enqueued while an earlier request has its flag write before it. */
  ghost predicate Serialised(initially: bool, events: seq<Event>) {
    forall i :: 0 <= i < |events| && events[i].PostEnqueues? ==> Execute(Initially(initially), events[..i]).unwritten == []
  }

  lemma SerialisedPrefix(initially: bool, events: seq<Event>)
    requires events != [] && Serialised(initially, events)
    ensures Serialised(initially, events[..|events| - 1])
  {
    var front := events[..|events| - 1];
    assert forall i :: 0 <= i < |front| ==> front[..i] == events[..i] && front[i] == events[i];
  }

  /** What holds in addition when requests do not overlap. */
  ghost predicate SerialInvariant(s: State, initially: bool) {
    && |s.unwritten| <= 1
    && (s.unwritten != [] ==> s.issued != [] && s.unwritten[0] == s.issued[|s.issued| - 1])
    && (NoToggle(Outstanding(s)) ==> s.flag == Asked(s.issued, initially))
    && (s.polled && !s.polling && NoToggle(s.queue) ==> s.seenPaused == Asked(s.issued, initially))
  }

  lemma SerialPost(s: State, c: Command, initially: bool)
    requires Invariant(s, initially) && SerialInvariant(s, initially) && s.unwritten == []
    ensures SerialInvariant(Next(s, PostEnqueues(c)), initially)
  {
    var t := Next(s, PostEnqueues(c));
    assert Outstanding(t) == Outstanding(s) + [c];
    assert t.issued[..|s.issued|] == s.issued;
    NoToggleSnoc(Outstanding(s), c);
    NoToggleSnoc(s.queue, c);
  }

  lemma SerialApply(s: State, initially: bool)
    requires Invariant(s, initially) && SerialInvariant(s, initially) && Enabled(s, WorkerApplies)
    ensures SerialInvariant(Next(s, WorkerApplies), initially)
  {
    var t, c := Next(s, WorkerApplies), s.claimed[0];
    assert s.claimed == [c] + t.claimed;
    assert Outstanding(s) == [c] + Outstanding(t);
    assert s.issued == (s.applied + [c]) + Outstanding(t);
    if NoToggle(Outstanding(t)) {
      AskedAppend(s.applied + [c], Outstanding(t), initially);
      AskedAppend(s.applied + [c], Outstanding(t), Asked(s.applied + [c], initially));
      assert (s.applied + [c])[..|s.applied|] == s.applied;
      if !Toggles(c) {
        assert NoToggle(Outstanding(s));
      }
    }
  }

  lemma SerialWrite(s: State, i: nat, initially: bool)
    requires Invariant(s, initially) && SerialInvariant(s, initially) && Enabled(s, PostWritesFlag(i))
    ensures SerialInvariant(Next(s, PostWritesFlag(i)), initially)
  {
    hide NoToggle;
    assert i == 0 && Toggles(s.unwritten[0]);
    assert Asked(s.issued, initially) == (s.unwritten[0] == Pause);
  }

  lemma SerialPop(s: State, initially: bool)
    requires Invariant(s, initially) && SerialInvariant(s, initially) && Enabled(s, WorkerPops)
    ensures SerialInvariant(Next(s, WorkerPops), initially)
  {
    hide NoToggle, Asked;
    assert Outstanding(Next(s, WorkerPops)) == Outstanding(s);
  }

  lemma SerialRead(s: State, initially: bool)
    requires Invariant(s, initially) && SerialInvariant(s, initially) && Enabled(s, WorkerReadsFlag)
    ensures SerialInvariant(Next(s, WorkerReadsFlag), initially)
  {
    hide NoToggle, Asked;
    assert Outstanding(s) == s.queue;
  }

  lemma SerialNext(s: State, e: Event, initially: bool)
    requires Invariant(s, initially) && SerialInvariant(s, initially) && Enabled(s, e)
    requires e.PostEnqueues? ==> s.unwritten == []
    ensures SerialInvariant(Next(s, e), initially)
  {
    hide Invariant, SerialInvariant, Asked, Next, NoToggle, Outstanding;
    match e {
      case PostEnqueues(c) => SerialPost(s, c, initially);
      case PostWritesFlag(i) => SerialWrite(s, i, initially);
      case WorkerPops => SerialPop(s, initially);
      case WorkerApplies => SerialApply(s, initially);
      case WorkerReadsFlag => SerialRead(s, initially);
    }
  }

  lemma {:induction false} AlwaysSerial(initially: bool, events: seq<Event>)
    requires Serialised(initially, events)
    ensures SerialInvariant(Execute(Initially(initially), events), initially)
  {
    if events != [] {
      var front := events[..|events| - 1];
      SerialisedPrefix(initially, events);
      AlwaysSerial(initially, front);
      AlwaysInvariant(initially, front);
      var before, e := Execute(Initially(initially), front), events[|events| - 1];
      if Enabled(before, e) { SerialNext(before, e, initially); }
    }
  }

  /**
    With requests one at a time the flag agrees whenever no pause or resume is waiting for the worker, even
    while the last request's own flag write is still to come.
    */
  lemma PauseAgreement(initially: bool, events: seq<Event>)
    requires Serialised(initially, events)
    ensures var s := Execute(Initially(initially), events);
            NoToggle(Outstanding(s)) ==> s.flag == Asked(s.issued, initially)
  {
    AlwaysSerial(initially, events);
  }

  /** ... and a worker that has polled and left no toggle behind knows the agreed state. */
  lemma WorkerKnows(initially: bool, events: seq<Event>)
    requires Serialised(initially, events)
    ensures var s := Execute(Initially(initially), events);
            s.polled && !s.polling && NoToggle(s.queue) ==> s.seenPaused == s.flag == Asked(s.issued, initially)
  {
    AlwaysSerial(initially, events);
    AlwaysInvariant(initially, events);
    var s := Execute(Initially(initially), events);
    if !s.polling { assert Outstanding(s) == s.queue; }
  }

  // ---- The worker's decision, and what a past pause does to it --------------------------------

  /**
    One turn of the worker loop: the commands its polls claim, the flag that the last of them reads, and
    whether a run would import a line. The flag need not follow from the commands: the API may already
    have written it for a command that is claimed only later.
    */
  datatype Turn = Turn(commands: seq<Command>, flag: bool, importsALine: bool)

  datatype Worker = Worker(paused: bool, shutdownRequested: bool)

  datatype TurnOutcome = SkippedPaused | RanToEnd | InterruptedRun

  /** After its polls the worker skips when paused, and otherwise runs a sync on the same thread. */
  function TakeTurn(w: Worker, t: Turn): (Worker, TurnOutcome) {
    var shutdown := w.shutdownRequested || Pause in t.commands;
    if t.flag then (Worker(true, shutdown), SkippedPaused)
    else if shutdown && t.importsALine then (Worker(false, false), InterruptedRun)
    else (Worker(false, shutdown), RanToEnd)
  }

  function After(turns: seq<Turn>): Worker {
    if turns == [] then Worker(false, false) else TakeTurn(After(turns[..|turns| - 1]), turns[|turns| - 1]).0
  }

  function OutcomeOf(turns: seq<Turn>): TurnOutcome
    requires turns != []
  {
    TakeTurn(After(turns[..|turns| - 1]), turns[|turns| - 1]).1
  }

  function OutcomeAt(turns: seq<Turn>, j: nat): TurnOutcome
    requires j < |turns|
  {
    OutcomeOf(turns[..j + 1])
  }

  /** A pause was polled at turn `i`, and from then on until the last turn no run was interrupted. */
  ghost predicate PauseUnspent(turns: seq<Turn>, i: nat)
    requires i < |turns|
  {
    Pause in turns[i].commands && forall j :: i <= j < |turns| - 1 ==> OutcomeAt(turns, j) != InterruptedRun
  }

  lemma PauseUnspentStep(turns: seq<Turn>, i: nat)
    requires |turns| > 1 && i < |turns| - 1
    ensures PauseUnspent(turns, i)
       <==> PauseUnspent(turns[..|turns| - 1], i) && OutcomeOf(turns[..|turns| - 1]) != InterruptedRun
  {
    hide OutcomeOf;
    var n := |turns| - 1;
    var front := turns[..n];
    forall j | 0 <= j < n ensures OutcomeAt(front, j) == OutcomeAt(turns, j) {
      assert front[..j + 1] == turns[..j + 1];
    }
    assert OutcomeOf(front) == OutcomeAt(turns, n - 1);
  }

  lemma {:induction false} ShutdownFlagIff(turns: seq<Turn>)
    requires turns != []
    ensures (After(turns[..|turns| - 1]).shutdownRequested || Pause in turns[|turns| - 1].commands)
       <==> exists i :: 0 <= i < |turns| && PauseUnspent(turns, i)
  {
    hide PauseUnspent;
    var n := |turns| - 1;
    var front := turns[..n];
    LastPauseUnspent(turns);
    if n > 0 {
      ShutdownFlagIff(front);
      forall i | 0 <= i < n
        ensures PauseUnspent(turns, i) <==> PauseUnspent(front, i) && OutcomeOf(front) != InterruptedRun
      {
        PauseUnspentStep(turns, i);
      }
      if Pause !in turns[n].commands && After(front).shutdownRequested {
        var i :| 0 <= i < n && PauseUnspent(front, i);
        assert PauseUnspent(turns, i);
      }
    }
  }

  lemma LastPauseUnspent(turns: seq<Turn>)
    requires turns != []
    ensures PauseUnspent(turns, |turns| - 1) <==> Pause in turns[|turns| - 1].commands
  {
  }

  /**
    A run is interrupted at its first line exactly when the flag read before it is down but a pause was
    polled that no interrupted run has spent yet. A run already under way is never interrupted by a pause.
    */
  lemma RunInterruptedIff(turns: seq<Turn>)
    requires turns != []
    ensures var last := turns[|turns| - 1];
            && (OutcomeOf(turns) == InterruptedRun <==>
                  !last.flag && last.importsALine && exists i :: 0 <= i < |turns| && PauseUnspent(turns, i))
  {
    ShutdownFlagIff(turns);
  }

  /** Otherwise a turn is skipped exactly when the flag read is up, and else its run goes to the end. */
  lemma SkippedIff(turns: seq<Turn>)
    requires turns != []
    ensures OutcomeOf(turns) == SkippedPaused <==> turns[|turns| - 1].flag
    ensures OutcomeOf(turns) == RanToEnd
       <==> !turns[|turns| - 1].flag && !(turns[|turns| - 1].importsALine && exists i :: 0 <= i < |turns| && PauseUnspent(turns, i))
    ensures After(turns).paused == turns[|turns| - 1].flag
  {
    hide PauseUnspent;
    ShutdownFlagIff(turns);
  }

  /** So the first import after a pause that is over is interrupted all the same. */
  lemma ResumedRunIsInterrupted()
    ensures var turns := [Turn([Pause], true, true), Turn([Resume], false, true)];
            OutcomeOf(turns[..1]) == SkippedPaused && OutcomeOf(turns) == InterruptedRun
  {
    var turns := [Turn([Pause], true, true), Turn([Resume], false, true)];
    assert turns[..1] == [turns[0]] && turns[..1][..0] == [];
    assert After([]) == Worker(false, false);
    assert Pause in [Pause];
  }

  /** A resume written by the API right after the worker claimed the pause starts a run, which is interrupted. */
  lemma UnclaimedResumeIsInterrupted()
    ensures OutcomeOf([Turn([Pause], false, true)]) == InterruptedRun
  {
    assert [Turn([Pause], false, true)][..0] == [] && Pause in [Pause];
  }
}
