/** The dashboard's background count: one refresh at a time, keyed by freshness. */
module CountCache {
  import opened Options

  /** The active collections and the time of the last completed sync. */
  datatype Key = Key(collections: seq<string>, freshness: Option<string>)

  type Counts = map<string, nat>

  /** `takenAt` is when the counting query ran, on the history's own clock. */
  datatype Cached = Cached(key: Key, storedAt: real, takenAt: nat, counts: Counts)

  const TTL: real := 60.0

  /** The two module globals that the lock protects. */
  datatype Shared = Shared(cache: Option<Cached>, refreshKey: Option<Key>)

  predicate FreshEnough(c: Cached, now: real) {
    now - c.storedAt < TTL
  }

  // ---- The two locked sections -------------------------------------------------------------

  /** What a request does under the lock: new globals, what it returns, and whether it starts a thread. */
  function Ask(s: Shared, key: Key, now: real, startFails: bool): (Shared, Option<Cached>, bool) {
    var hit := if s.cache.Some? && s.cache.value.key == key then s.cache else None;
    if hit.Some? && FreshEnough(hit.value, now) then (s, hit, false)
    else if s.refreshKey.None? && !startFails then (s.(refreshKey := Some(key)), hit, true)
    else (s, hit, false)
  }

  /** What a refresh thread does under the lock when it ends; `result` is absent when counting failed. */
  function Finish(s: Shared, key: Key, result: Option<(nat, Counts)>, now: real): Shared {
    if s.refreshKey != Some(key) then s
    else
      Shared(
        if result.Some? then Some(Cached(key, now, result.value.0, result.value.1)) else s.cache,
        None)
  }

  class Globals {
    var cache: Option<Cached>
    var refreshKey: Option<Key>

    constructor ()
      ensures Value() == Shared(None, None)
    {
      cache, refreshKey := None, None;
    }

    function Value(): Shared
      reads this
    {
      Shared(cache, refreshKey)
    }

    /** `_current_collection_counts` */
    method CurrentCollectionCounts(key: Key, now: real, startFails: bool) returns (result: Option<Cached>, started: bool)
      modifies this
      ensures (Value(), result, started) == Ask(old(Value()), key, now, startFails)
    {
      result, started := None, false;
      if cache.Some? {
        if cache.value.key == key {
          result := cache;
          if now - cache.value.storedAt < TTL {
            return;
          }
        }
      }
      if refreshKey.None? {
        refreshKey := Some(key);
        if startFails {
          refreshKey := None;
        } else {
          started := true;
        }
      }
    }

    /** The `finally` block of `_refresh_collection_counts` */
    method FinishRefresh(key: Key, result: Option<(nat, Counts)>, now: real)
      modifies this
      ensures Value() == Finish(old(Value()), key, result, now)
    {
      if refreshKey == Some(key) {
        if result.Some? {
          cache := Some(Cached(key, now, result.value.0, result.value.1));
        }
        refreshKey := None;
      }
    }
  }

  // ---- Requests and refresh threads interleaved -----------------------------------------------

  /** A refresh thread: counting, counted, or failed to count. */
  datatype Refresh = Refresh(key: Key, outcome: Option<Option<(nat, Counts)>>)

  /** `firstRead` records when each key was first read from the database. */
  datatype State = State(
    clock: nat,
    shared: Shared,
    threads: map<nat, Refresh>,
    started: nat,
    firstRead: map<Key, nat>)

  datatype Event =
    | ReadKey(key: Key)
    | Request(key: Key, now: real, startFails: bool)
    | Count(thread: nat, counts: Counts)
    | CountFails(thread: nat)
    | End(thread: nat, now: real)

  const STARTUP := State(0, Shared(None, None), map[], 0, map[])

  /** A request asks with a key it has read; a thread counts before it ends. */
  predicate Enabled(s: State, e: Event) {
    match e
    case ReadKey(_) => true
    case Request(key, _, _) => key in s.firstRead
    case Count(id, _) => id in s.threads && s.threads[id].outcome.None?
    case CountFails(id) => id in s.threads && s.threads[id].outcome.None?
    case End(id, _) => id in s.threads && s.threads[id].outcome.Some?
  }

  function Next(s: State, e: Event): State
    requires Enabled(s, e)
  {
    var t := s.(clock := s.clock + 1);
    match e
    case ReadKey(key) =>
      if key in s.firstRead then t else t.(firstRead := s.firstRead[key := s.clock])
    case Request(key, now, startFails) =>
      var (shared, _, starts) := Ask(s.shared, key, now, startFails);
      if starts then t.(shared := shared, threads := s.threads[s.started := Refresh(key, None)], started := s.started + 1)
      else t.(shared := shared)
    case Count(id, counts) =>
      t.(threads := s.threads[id := s.threads[id].(outcome := Some(Some((s.clock, counts))))])
    case CountFails(id) =>
      t.(threads := s.threads[id := s.threads[id].(outcome := Some(None))])
    case End(id, now) =>
      var r := s.threads[id];
      t.(shared := Finish(s.shared, r.key, r.outcome.value, now), threads := s.threads - {id})
  }

  /** Any interleaving; an event that is not enabled does not happen. */
  function Execute(events: seq<Event>): State {
    if events == [] then STARTUP
    else
      var before, e := Execute(events[..|events| - 1]), events[|events| - 1];
      if Enabled(before, e) then Next(before, e) else before
  }

  /** What a request with this key would be given now. */
  function Answer(s: State, key: Key, now: real): Option<Cached> {
    Ask(s.shared, key, now, true).1
  }

  /** At most one live thread, and the refresh key is set to its key exactly while it lives. */
  ghost predicate SingleFlight(s: State) {
    && (forall i, j :: i in s.threads && j in s.threads ==> i == j)
    && (s.shared.refreshKey.Some? <==> s.threads != map[])
    && (forall i :: i in s.threads ==> s.shared.refreshKey == Some(s.threads[i].key))
  }

  /** Counts were taken after their key was first read from the database. */
  ghost predicate Sound(s: State, key: Key, takenAt: nat) {
    key in s.firstRead && s.firstRead[key] < takenAt < s.clock
  }

  ghost predicate Invariant(s: State) {
    && SingleFlight(s)
    && (forall i :: i in s.threads ==> i < s.started)
    && (forall i :: i in s.threads ==> s.threads[i].key in s.firstRead)
    && (forall k :: k in s.firstRead ==> s.firstRead[k] < s.clock)
    && (forall i :: i in s.threads && s.threads[i].outcome.Some? && s.threads[i].outcome.value.Some? ==>
          Sound(s, s.threads[i].key, s.threads[i].outcome.value.value.0))
    && (s.shared.cache.Some? ==> Sound(s, s.shared.cache.value.key, s.shared.cache.value.takenAt))
  }

  lemma RequestKeepsInvariant(s: State, e: Event)
    requires Invariant(s) && Enabled(s, e) && e.Request?
    ensures Invariant(Next(s, e))
  {
    var t := Next(s, e);
    if Ask(s.shared, e.key, e.now, e.startFails).2 {
      assert s.threads == map[] && s.started in t.threads;
      assert t.threads != map[];
    }
  }

  lemma EndKeepsInvariant(s: State, e: Event)
    requires Invariant(s) && Enabled(s, e) && e.End?
    ensures Invariant(Next(s, e))
  {
    assert s.threads.Keys - {e.thread} == {};
    assert Next(s, e).threads == map[];
  }

  lemma NextKeepsInvariant(s: State, e: Event)
    requires Invariant(s) && Enabled(s, e)
    ensures Invariant(Next(s, e))
  {
    match e {
      case ReadKey(_) =>
      case Request(_, _, _) => RequestKeepsInvariant(s, e);
      case Count(id, _) => assert Next(s, e).threads.Keys == s.threads.Keys; assert s.threads != map[];
      case CountFails(id) => assert Next(s, e).threads.Keys == s.threads.Keys; assert s.threads != map[];
      case End(_, _) => EndKeepsInvariant(s, e);
    }
  }

  lemma {:induction false} AlwaysInvariant(events: seq<Event>)
    ensures Invariant(Execute(events))
  {
    if events != [] {
      AlwaysInvariant(events[..|events| - 1]);
      var before, e := Execute(events[..|events| - 1]), events[|events| - 1];
      if Enabled(before, e) { NextKeepsInvariant(before, e); }
    }
  }

  /** Over every interleaving at most one refresh is live, and the refresh key is set exactly while one is. */
  lemma AtMostOneRefresh(events: seq<Event>)
    ensures var s := Execute(events);
            |s.threads| <= 1 && (s.shared.refreshKey.Some? <==> |s.threads| == 1)
    ensures SingleFlight(Execute(events))
  {
    AlwaysInvariant(events);
    var s := Execute(events);
    if s.threads != map[] {
      var i :| i in s.threads;
      assert s.threads.Keys == {i};
      assert |s.threads| == |s.threads.Keys|;
    }
  }

  /** Counts are never older than their key: what a request gets was counted after its key was first read. */
  lemma AnswersAreFresh(events: seq<Event>, key: Key, now: real)
    ensures var s := Execute(events);
            var a := Answer(s, key, now);
            a.Some? ==> a.value.key == key && key in s.firstRead && s.firstRead[key] < a.value.takenAt
  {
    AlwaysInvariant(events);
  }

  /** What a request gets and when it starts a refresh: counts of its own key, and a refresh unless they are younger than a minute. */
  lemma AskIff(s: Shared, key: Key, now: real, startFails: bool)
    ensures var (after, result, starts) := Ask(s, key, now, startFails);
            var held := s.cache.Some? && s.cache.value.key.collections == key.collections && s.cache.value.key.freshness == key.freshness;
            && (result == if held then s.cache else None)
            && (starts <==> s.refreshKey.None? && !startFails && !(held && now - s.cache.value.storedAt < 60.0))
            && after.cache == s.cache && (after.refreshKey == if starts then Some(key) else s.refreshKey)
  {
  }

  /** The event at place `i` counted `counts` at time `takenAt` in a refresh for `key`. */
  ghost predicate CountedAt(events: seq<Event>, i: nat, key: Key, takenAt: nat, counts: Counts) {
    && i < |events| && events[i].Count? && events[i].counts == counts
    && var s := Execute(events[..i]);
       Enabled(s, events[i]) && s.clock == takenAt && s.threads[events[i].thread].key == key
  }

  ghost predicate WasCounted(events: seq<Event>, key: Key, takenAt: nat, counts: Counts) {
    exists i: nat :: CountedAt(events, i, key, takenAt, counts)
  }

  /** All counts in the state were counted by some refresh, for the key under which they are held. */
  ghost predicate AllCounted(events: seq<Event>, s: State) {
    && (forall id :: id in s.threads && s.threads[id].outcome.Some? && s.threads[id].outcome.value.Some? ==>
          WasCounted(events, s.threads[id].key, s.threads[id].outcome.value.value.0, s.threads[id].outcome.value.value.1))
    && (s.shared.cache.Some? ==> WasCounted(events, s.shared.cache.value.key, s.shared.cache.value.takenAt, s.shared.cache.value.counts))
  }

  lemma StaysCounted(events: seq<Event>, key: Key, takenAt: nat, counts: Counts)
    requires events != [] && WasCounted(events[..|events| - 1], key, takenAt, counts)
    ensures WasCounted(events, key, takenAt, counts)
  {
    hide Execute;
    var front := events[..|events| - 1];
    var i: nat :| CountedAt(front, i, key, takenAt, counts);
    assert front[..i] == events[..i];
    assert CountedAt(events, i, key, takenAt, counts);
  }

  lemma CountedNow(events: seq<Event>)
    requires events != []
    requires var n := |events| - 1; events[n].Count? && Enabled(Execute(events[..n]), events[n])
    ensures var n := |events| - 1;
            var s := Execute(events[..n]);
            WasCounted(events, s.threads[events[n].thread].key, s.clock, events[n].counts)
  {
    hide Execute;
    var n := |events| - 1;
    var s := Execute(events[..n]);
    assert CountedAt(events, n, s.threads[events[n].thread].key, s.clock, events[n].counts);
  }

  lemma {:induction false} CountsAreCounted(events: seq<Event>)
    ensures AllCounted(events, Execute(events))
  {
    hide WasCounted;
    if events != [] {
      var n := |events| - 1;
      var front, e := events[..n], events[n];
      CountsAreCounted(front);
      var before := Execute(front);
      forall key, takenAt, counts | WasCounted(front, key, takenAt, counts) ensures WasCounted(events, key, takenAt, counts) {
        StaysCounted(events, key, takenAt, counts);
      }
      if Enabled(before, e) && e.Count? { CountedNow(events); }
    }
  }

  /** What a request gets is what some refresh for its key counted, at the time that goes with it. */
  lemma AnswersWereCounted(events: seq<Event>, key: Key, now: real)
    ensures var a := Answer(Execute(events), key, now);
            a.Some? ==> WasCounted(events, key, a.value.takenAt, a.value.counts)
  {
    CountsAreCounted(events);
  }

  /** A refresh that has counted leaves its counts in the cache when it ends, one that failed leaves the cache alone. */
  lemma RefreshStores(events: seq<Event>, id: nat, now: real)
    requires Enabled(Execute(events), End(id, now))
    ensures var s, t := Execute(events), Next(Execute(events), End(id, now));
            var r := s.threads[id];
            match r.outcome.value
            case None => t.shared.cache == s.shared.cache
            case Some(taken) => t.shared.cache == Some(Cached(r.key, now, taken.0, taken.1))
  {
    AlwaysInvariant(events);
  }

  /**
    After a sync completes, the first request under the new key gets nothing, and gets counts only from
    a count that started later.
    */
  lemma NewKeyStartsEmpty(events: seq<Event>, key: Key, now: real)
    requires key !in Execute(events).firstRead
    ensures Answer(Execute(events), key, now).None?
  {
    AlwaysInvariant(events);
  }

  /** A refresh never gets stuck: once it ends, whatever its outcome, the next stale request starts another. */
  lemma RefreshCanRestart(events: seq<Event>, id: nat, now: real, key: Key, later: real)
    requires var s := Execute(events); Enabled(s, End(id, now))
    requires var s := Next(Execute(events), End(id, now));
             s.shared.cache.None? || s.shared.cache.value.key != key || !FreshEnough(s.shared.cache.value, later)
    ensures var s := Next(Execute(events), End(id, now));
            Ask(s.shared, key, later, false).2
  {
    AlwaysInvariant(events);
  }
}
