/**
 The project router as a transition system. Every region the program runs under the router's mutex is
 one atomic step; so is each action it takes outside the mutex that matters to others (publishing an
 opened bundle on its entry, closing a bundle). A run is any sequence of steps by any number of
 callers, openers, closers and maintenance sweeps.
 */
module RouterModel {

  datatype Option<+T> = None | Some(value: T)

  datatype OpenResult = NoResult | Opened | Failed

  /** What a router is made with: the default project, if any, and `RouterMaxEntries`. */
  datatype Config = Config(defaultRef: Option<string>, capacity: int)

  /** `routerEntry`; `done` says the channel is closed. */
  datatype Entry = Entry(
    ref: string, pinned: bool, ready: bool, bundle: bool, active: int, lastUsed: int,
    done: bool, result: OpenResult, removed: bool)

  /** A caller of `Acquire` or a maintenance pin: waiting for an opening, holding a lease, or gone. */
  datatype Status = Waiting | Leased | Gone

  datatype Holder = Holder(entry: nat, status: Status)

  /**
   `heap` holds every entry ever created, by creation number; `entries` is the router's map. The
   bundles of entries in `closing` have been handed over for closing, those in `shut` are closed.
   `cleanupDue` marks a closer between releasing and re-taking the mutex, `taken` what cleanup took.
   */
  datatype State = State(
    capacity: int, heap: seq<Entry>, entries: map<string, nat>, holders: seq<Holder>, openers: set<nat>,
    closing: set<nat>, shut: set<nat>,
    closed: bool, cleanupStarted: bool, cleanupDue: bool, taken: Option<set<nat>>, complete: bool,
    openingCount: int, activeCount: int, useCounter: int)

  /** `NewRouter`, with or without a default project. */
  function Initial(config: Config): State {
    match config.defaultRef
    case None => State(config.capacity, [], map[], [], {}, {}, {}, false, false, false, None, false, 0, 0, 0)
    case Some(ref) =>
      State(config.capacity, [Entry(ref, true, true, true, 0, 1, false, NoResult, false)], map[ref := 0], [],
            {}, {}, {}, false, false, false, None, false, 0, 0, 1)
  }

  // ---------------------------------------------------------------- eviction

  /** An entry `evictIdleEntryLocked` may pick. */
  predicate Idle(s: State, id: nat) {
    && id < |s.heap| && s.heap[id].ref in s.entries && s.entries[s.heap[id].ref] == id
    && !s.heap[id].pinned && s.heap[id].ready && !s.heap[id].removed && s.heap[id].active == 0
  }

  /** What the loop over the map returns, in whatever order it visits the map. */
  ghost predicate IsVictim(s: State, victim: Option<nat>) {
    match victim
    case None => forall id: nat :: !Idle(s, id)
    case Some(v) => Idle(s, v) && forall id: nat | Idle(s, id) :: s.heap[v].lastUsed <= s.heap[id].lastUsed
  }

  // ---------------------------------------------------------------- steps

  datatype Action =
    | Acquire(ref: string, victim: Option<nat>)  // first locked region of Acquire
    | Compose(id: nat)                           // the opener stores the bundle on its entry
    | Publish(id: nat)                           // locked region of the opener
    | Cancel(holder: nat)                        // a waiter's context ends
    | Resume(holder: nat)                        // a waiter sees the opening done
    | Pin(ref: string)                           // pinReadyEntry
    | Release(holder: nat)                       // routerLease.Release
    | Close                                      // Close marks the router closed
    | StartCleanup                               // Close finds the router drained
    | Cleanup                                    // first locked region of runCleanup
    | CloseBundle(id: nat)                       // a bundle handed over is closed
    | FinishCleanup                              // last locked region of runCleanup

  function Set(s: State, id: nat, e: Entry): State
    requires id < |s.heap|
  {
    s.(heap := s.heap[id := e])
  }

  /** Count one more use of an entry. */
  function Hold(s: State, id: nat, status: Status, touch: bool): State
    requires id < |s.heap|
  {
    var e := s.heap[id];
    Set(s, id, e.(active := e.active + 1, lastUsed := if touch then s.useCounter + 1 else e.lastUsed))
    .(activeCount := s.activeCount + 1, holders := s.holders + [Holder(id, status)],
      useCounter := if touch then s.useCounter + 1 else s.useCounter)
  }

  /** `releaseEntryLocked`, with its guards against counting below zero. */
  function ReleaseEntry(s: State, id: nat): State
    requires id < |s.heap|
  {
    var e := s.heap[id];
    Set(s, id, e.(active := if e.active > 0 then e.active - 1 else e.active))
    .(activeCount := if s.activeCount > 0 then s.activeCount - 1 else s.activeCount)
  }

  function SetHolder(s: State, h: nat, status: Status): State
    requires h < |s.holders|
  {
    s.(holders := s.holders[h := s.holders[h].(status := status)])
  }

  /** The victim leaves the map and its bundle is handed over for closing. */
  function Evict(s: State, v: nat): State
    requires v < |s.heap|
  {
    Set(s, v, s.heap[v].(removed := true))
    .(entries := map ref | ref in s.entries && ref != s.heap[v].ref :: s.entries[ref], closing := s.closing + {v})
  }

  /** A new entry starts opening, with its first waiter. */
  function StartOpening(s: State, ref: string): State {
    var id := |s.heap|;
    s.(heap := s.heap + [Entry(ref, false, false, false, 1, s.useCounter + 2, false, NoResult, false)],
       entries := s.entries[ref := id], openers := s.openers + {id}, holders := s.holders + [Holder(id, Waiting)],
       openingCount := s.openingCount + 1, activeCount := s.activeCount + 1, useCounter := s.useCounter + 2)
  }

  /** An action that the program can take in a state. */
  ghost predicate Enabled(s: State, a: Action) {
    match a
    case Acquire(_, victim) => IsVictim(s, victim)
    case Compose(id) => id in s.openers && id < |s.heap| && !s.heap[id].bundle
    case Publish(id) => id in s.openers && id < |s.heap|
    case Cancel(h) => h < |s.holders| && s.holders[h].status == Waiting && s.holders[h].entry < |s.heap|
    case Resume(h) =>
      h < |s.holders| && s.holders[h].status == Waiting && s.holders[h].entry < |s.heap|
      && s.heap[s.holders[h].entry].done
    case Pin(_) => true
    case Release(h) => h < |s.holders| && s.holders[h].status != Waiting && s.holders[h].entry < |s.heap|
    case Close => true
    case StartCleanup => s.closed && !s.cleanupStarted && s.openingCount == 0 && s.activeCount == 0
    case Cleanup => s.cleanupDue
    case CloseBundle(id) => id in s.closing
    case FinishCleanup => s.taken.Some? && !s.complete && s.taken.value * s.closing == {}
  }

  predicate Known(s: State, ref: string) { ref in s.entries && s.entries[ref] < |s.heap| }

  function AcquireStep(s: State, ref: string, victim: Option<nat>): State {
    if s.closed then s
    else if Known(s, ref) then
      Hold(s, s.entries[ref], if s.heap[s.entries[ref]].ready then Leased else Waiting, true)
    else if |s.entries| >= s.capacity then
      if victim.Some? && victim.value < |s.heap| then StartOpening(Evict(s, victim.value), ref)
      else s
    else StartOpening(s, ref)
  }

  /** The opener's outcome: a bundle was stored, or opening failed. */
  function PublishStep(s: State, id: nat): State
    requires id < |s.heap|
  {
    var e := s.heap[id];
    var stopped := s.(openers := s.openers - {id});
    if e.removed then stopped
    else if !e.bundle then
      Set(stopped, id, e.(result := Failed, removed := true, done := true))
      .(entries := map ref | ref in s.entries && ref != e.ref :: s.entries[ref], openingCount := s.openingCount - 1)
    else
      Set(stopped, id, e.(result := Opened, ready := true, done := true, lastUsed := s.useCounter + 1))
      .(openingCount := s.openingCount - 1, useCounter := s.useCounter + 1)
  }

  function ResumeStep(s: State, h: nat): State
    requires h < |s.holders| && s.holders[h].entry < |s.heap|
  {
    var id := s.holders[h].entry;
    if s.heap[id].result == Failed || s.heap[id].result == NoResult then SetHolder(ReleaseEntry(s, id), h, Gone)
    else SetHolder(s, h, Leased)
  }

  function CleanupStep(s: State): State {
    if s.openingCount != 0 || s.activeCount != 0 then s.(cleanupDue := false)
    else
      var all := set ref | ref in s.entries :: s.entries[ref];
      s.(cleanupDue := false, entries := map[], closing := s.closing + all, taken := Some(all))
  }

  ghost function Next(s: State, a: Action): State
    requires Enabled(s, a)
  {
    match a
    case Acquire(ref, victim) => AcquireStep(s, ref, victim)
    case Compose(id) => Set(s, id, s.heap[id].(bundle := true))
    case Publish(id) => PublishStep(s, id)
    case Cancel(h) => SetHolder(ReleaseEntry(s, s.holders[h].entry), h, Gone)
    case Resume(h) => ResumeStep(s, h)
    case Pin(ref) =>
      if Known(s, ref) && s.heap[s.entries[ref]].ready && !s.heap[s.entries[ref]].removed then
        Hold(s, s.entries[ref], Leased, false)
      else s
    case Release(h) =>
      if s.holders[h].status == Leased then SetHolder(ReleaseEntry(s, s.holders[h].entry), h, Gone) else s
    case Close => s.(closed := true)
    case StartCleanup => s.(cleanupStarted := true, cleanupDue := true)
    case Cleanup => CleanupStep(s)
    case CloseBundle(id) => s.(closing := s.closing - {id}, shut := s.shut + {id})
    case FinishCleanup => s.(complete := true)
  }

  // ---------------------------------------------------------------- the invariant

  /** Waiters and unreleased leases on an entry. */
  function Uses(holders: seq<Holder>, id: nat): nat {
    if holders == [] then 0
    else
      var last := holders[|holders| - 1];
      Uses(holders[..|holders| - 1], id) + if last.entry == id && last.status != Gone then 1 else 0
  }

  function AllUses(holders: seq<Holder>): nat {
    if holders == [] then 0
    else AllUses(holders[..|holders| - 1]) + if holders[|holders| - 1].status != Gone then 1 else 0
  }

  function TotalActive(heap: seq<Entry>): int {
    if heap == [] then 0 else TotalActive(heap[..|heap| - 1]) + heap[|heap| - 1].active
  }

  /** The entry is the one its ref names. */
  predicate Mapped(s: State, id: nat)
    requires id < |s.heap|
  {
    s.heap[id].ref in s.entries && s.entries[s.heap[id].ref] == id
  }

  ghost predicate CountersExact(s: State) {
    && s.activeCount == AllUses(s.holders) && s.activeCount == TotalActive(s.heap)
    && (forall id: nat | id < |s.heap| :: s.heap[id].active == Uses(s.holders, id))
    && (forall h | 0 <= h < |s.holders| :: s.holders[h].entry < |s.heap|)
    && s.openingCount == |s.openers|
  }

  ghost predicate MapSound(s: State) {
    && (forall ref | ref in s.entries ::
          s.entries[ref] < |s.heap| && s.heap[s.entries[ref]].ref == ref && !s.heap[s.entries[ref]].removed)
    && |s.entries| <= Room(s)
  }

  /** The map never outgrows the capacity; a default project takes its place even in a router without any. */
  function Room(s: State): nat { if s.capacity > 1 then s.capacity else 1 }

  /** The life of an entry: opening in the map, ready in the map, or out of it for a reason. */
  ghost predicate LifeCycle(s: State) {
    && (forall id | id in s.openers :: id < |s.heap| && IsOpening(s.heap[id]) && Mapped(s, id))
    && (forall id: nat | id < |s.heap| && id !in s.openers ::
          IsReady(s.heap[id]) || (IsFailed(s.heap[id]) && !Mapped(s, id)))
  }

  predicate IsOpening(e: Entry) { !e.ready && !e.done && e.result == NoResult }

  predicate IsReady(e: Entry) { e.ready && e.bundle && (if e.done then e.result == Opened else e.result == NoResult) }

  predicate IsFailed(e: Entry) { !e.ready && e.done && e.result == Failed }

  /** A ready entry is in the map, or its bundle is being closed, or is closed; never two of these. */
  ghost predicate BundlesAccounted(s: State) {
    && s.closing !! s.shut
    && (forall id | id in s.closing + s.shut :: id < |s.heap| && s.heap[id].ready && !Mapped(s, id))
    && (forall id: nat | id < |s.heap| && s.heap[id].ready :: Mapped(s, id) || id in s.closing + s.shut)
  }

  /** No one waits for or holds an entry whose bundle is being closed or is closed. */
  ghost predicate NoUseAfterClose(s: State) {
    && (forall id | id in s.closing + s.shut :: id < |s.heap| && s.heap[id].active == 0)
    && (forall h | 0 <= h < |s.holders| && s.holders[h].status == Leased ::
          s.holders[h].entry < |s.heap| && s.heap[s.holders[h].entry].ready)
  }

  ghost predicate ClocksDistinct(s: State) {
    && (forall id: nat | id < |s.heap| :: s.heap[id].lastUsed <= s.useCounter)
    && (forall i: nat, j: nat | i < j < |s.heap| :: s.heap[i].lastUsed != s.heap[j].lastUsed)
  }

  ghost predicate ClosingSound(s: State) {
    && (s.cleanupStarted ==> s.closed) && (s.cleanupDue || s.taken.Some? ==> s.cleanupStarted)
    && (s.cleanupDue ==> s.taken.None? && s.openers == {})
    && (s.taken.Some? ==> s.entries == map[] && s.openers == {} && s.activeCount == 0
                          && s.taken.value <= s.closing + s.shut)
    && (s.complete ==> s.taken.Some? && s.taken.value <= s.shut)
  }

  ghost predicate Inv(s: State) {
    && CountersExact(s) && MapSound(s) && LifeCycle(s) && BundlesAccounted(s) && NoUseAfterClose(s)
    && ClocksDistinct(s) && ClosingSound(s)
  }

  // ---------------------------------------------------------------- runs

  ghost predicate Step(before: State, a: Action, after: State) {
    Enabled(before, a) && after == Next(before, a)
  }

  /** A run: the states a new router passes through under a sequence of actions. */
  ghost predicate Run(config: Config, states: seq<State>, actions: seq<Action>) {
    && |states| == |actions| + 1 && states[0] == Initial(config)
    && forall i | 0 <= i < |actions| :: Step(states[i], actions[i], states[i + 1])
  }
}
