/**
 What is evicted, over every run and in terms of what callers did: never the default project, only when
 the map is full, and then the unused entry whose last acquisition or opening lies furthest back.
 */
module RouterEviction {
  import opened RouterModel
  import opened RouterSafety

  // ---------------------------------------------------------------- the default project

  ghost predicate HasDefault(config: Config, id: nat) { config.defaultRef.Some? && id == 0 }

  /** The default project is in the map, and its bundle has not been handed over. */
  ghost predicate DefaultMapped(s: State, ref: string) {
    ref in s.entries && s.entries[ref] == 0 && 0 !in s.closing && 0 !in s.shut
  }

  ghost predicate DefaultKept(s: State, ref: string) {
    DefaultMapped(s, ref) && 0 < |s.heap| && s.heap[0].ref == ref && s.heap[0].pinned && s.heap[0].ready
  }

  /** Cleanup takes the map: nothing is opening and nothing is in use. */
  ghost predicate TakesMap(states: seq<State>, actions: seq<Action>, i: nat)
    requires i < |states| && i < |actions|
  {
    actions[i].Cleanup? && states[i].openingCount == 0 && states[i].activeCount == 0
  }

  lemma EvictKeepsDefault(s: State, v: nat, home: string)
    requires Idle(s, v) && DefaultKept(s, home)
    ensures DefaultKept(Evict(s, v), home)
  {
  }

  lemma OpeningKeepsDefault(s: State, ref: string, home: string)
    requires ref !in s.entries && DefaultKept(s, home)
    ensures DefaultKept(StartOpening(s, ref), home)
  {
  }

  lemma HoldKeepsDefault(s: State, id: nat, status: Status, touch: bool, home: string)
    requires id < |s.heap| && DefaultKept(s, home)
    ensures DefaultKept(Hold(s, id, status, touch), home)
  {
  }

  lemma AcquireKeepsDefault(s: State, ref: string, victim: Option<nat>, home: string)
    requires MapSound(s) && IsVictim(s, victim) && DefaultKept(s, home)
    ensures DefaultKept(AcquireStep(s, ref, victim), home)
  {
    hide Hold, Evict, StartOpening, DefaultKept, Idle;
    if s.closed {
    } else if Known(s, ref) {
      HoldKeepsDefault(s, s.entries[ref], if s.heap[s.entries[ref]].ready then Leased else Waiting, true, home);
    } else if |s.entries| < s.capacity {
      OpeningKeepsDefault(s, ref, home);
    } else if victim.Some? && victim.value < |s.heap| {
      EvictKeepsDefault(s, victim.value, home);
      EvictedAbsent(s, victim.value, ref);
      OpeningKeepsDefault(Evict(s, victim.value), ref, home);
    }
  }

  lemma EvictedAbsent(s: State, v: nat, ref: string)
    requires v < |s.heap| && ref !in s.entries
    ensures ref !in Evict(s, v).entries
  {
  }

  lemma PublishKeepsDefault(s: State, id: nat, home: string)
    requires Inv(s) && id in s.openers && DefaultKept(s, home)
    ensures DefaultKept(PublishStep(s, id), home)
  {
    OpeningNotRemoved(s, id);
  }

  lemma HoldersKeepDefault(s: State, h: nat, home: string)
    requires DefaultKept(s, home) && h < |s.holders| && s.holders[h].entry < |s.heap|
    ensures DefaultKept(SetHolder(ReleaseEntry(s, s.holders[h].entry), h, Gone), home)
    ensures DefaultKept(ResumeStep(s, h), home)
  {
  }

  lemma StepKeepsDefault(s: State, a: Action, home: string)
    requires Inv(s) && Enabled(s, a) && DefaultKept(s, home)
    requires a.Cleanup? ==> s.openingCount != 0 || s.activeCount != 0
    ensures DefaultKept(Next(s, a), home)
  {
    hide CountersExact, LifeCycle, BundlesAccounted, NoUseAfterClose, ClocksDistinct, ClosingSound, IsVictim;
    match a
    case Acquire(ref, victim) => AcquireKeepsDefault(s, ref, victim, home);
    case Publish(id) => PublishKeepsDefault(s, id, home);
    case Cancel(h) => HoldersKeepDefault(s, h, home);
    case Resume(h) => HoldersKeepDefault(s, h, home);
    case Release(h) => HoldersKeepDefault(s, h, home);
    case _ =>
  }

  lemma RunStart(config: Config, states: seq<State>, actions: seq<Action>)
    requires Run(config, states, actions)
    ensures |states| == |actions| + 1 && states[0] == Initial(config)
  {
  }

  lemma StepNext(s: State, a: Action, t: State)
    requires Step(s, a, t)
    ensures Enabled(s, a) && t == Next(s, a)
  {
  }

  lemma DefaultStart(config: Config)
    requires config.defaultRef.Some?
    ensures DefaultKept(Initial(config), config.defaultRef.value)
  {
  }

  /** In every run the default project stays in the map, under its ref, until cleanup takes the map. */
  lemma {:induction false} DefaultStays(
    config: Config, states: seq<State>, actions: seq<Action>, i: nat)
    requires Run(config, states, actions) && i < |states| && config.defaultRef.Some?
    requires forall j | 0 <= j < i :: !TakesMap(states, actions, j)
    ensures DefaultKept(states[i], config.defaultRef.value)
  {
    hide Inv, Run, Step, DefaultKept;
    RunStart(config, states, actions);
    if i == 0 {
      DefaultStart(config);
    } else {
      DefaultStays(config, states, actions, i - 1);
      RunSafe(config, states, actions, i - 1);
      RunStep(config, states, actions, i - 1);
      StepNext(states[i - 1], actions[i - 1], states[i]);
      assert !TakesMap(states, actions, i - 1);
      StepKeepsDefault(states[i - 1], actions[i - 1], config.defaultRef.value);
    }
  }

  // ---------------------------------------------------------------- what a step does to recency

  /** Only the default project is pinned; the capacity is what the router was made with. */
  ghost predicate Pinning(config: Config, s: State) {
    && s.capacity == config.capacity && (config.defaultRef.Some? ==> |s.heap| > 0)
    && forall id: nat | id < |s.heap| :: s.heap[id].pinned <==> HasDefault(config, id)
  }

  /** Entries are never forgotten or re-pinned. */
  ghost predicate SameEntriesOrMore(s: State, t: State) {
    && t.capacity == s.capacity && |s.heap| <= |t.heap|
    && (forall id: nat | id < |s.heap| :: t.heap[id].pinned == s.heap[id].pinned)
    && (forall id: nat | |s.heap| <= id < |t.heap| :: !t.heap[id].pinned)
  }

  lemma StepEntries(s: State, a: Action)
    requires Enabled(s, a)
    ensures SameEntriesOrMore(s, Next(s, a))
  {
    hide IsVictim, AcquireStep, PublishStep, ResumeStep, ReleaseEntry, SetHolder;
    match a
    case Acquire(ref, victim) => AcquireEntries(s, ref, victim);
    case Publish(id) => PublishEntries(s, id);
    case Cancel(h) => HolderEntries(s, h);
    case Resume(h) => HolderEntries(s, h);
    case Release(h) => HolderEntries(s, h);
    case _ =>
  }

  lemma AcquireEntries(s: State, ref: string, victim: Option<nat>)
    ensures SameEntriesOrMore(s, AcquireStep(s, ref, victim))
  {
    hide Hold, Evict, StartOpening, SameEntriesOrMore;
    SameEntries(s);
    if !s.closed && Known(s, ref) {
      HoldEntries(s, s.entries[ref], if s.heap[s.entries[ref]].ready then Leased else Waiting);
    } else if !s.closed {
      OpeningEntries(s, ref);
      if victim.Some? && victim.value < |s.heap| { EvictEntries(s, victim.value, ref); }
    }
  }

  lemma SameEntries(s: State)
    ensures SameEntriesOrMore(s, s)
  {
  }

  lemma HoldEntries(s: State, id: nat, status: Status)
    requires id < |s.heap|
    ensures SameEntriesOrMore(s, Hold(s, id, status, true))
  {
  }

  lemma OpeningEntries(s: State, ref: string)
    ensures SameEntriesOrMore(s, StartOpening(s, ref))
  {
  }

  lemma EvictEntries(s: State, v: nat, ref: string)
    requires v < |s.heap|
    ensures SameEntriesOrMore(s, StartOpening(Evict(s, v), ref))
  {
  }

  lemma PublishEntries(s: State, id: nat)
    requires id < |s.heap|
    ensures SameEntriesOrMore(s, PublishStep(s, id))
  {
  }

  lemma HolderEntries(s: State, h: nat)
    requires h < |s.holders| && s.holders[h].entry < |s.heap|
    ensures SameEntriesOrMore(s, SetHolder(ReleaseEntry(s, s.holders[h].entry), h, Gone))
    ensures SameEntriesOrMore(s, ResumeStep(s, h))
  {
  }

  lemma {:induction false} RunPinning(config: Config, states: seq<State>, actions: seq<Action>, i: nat)
    requires Run(config, states, actions) && i < |states|
    ensures Pinning(config, states[i])
  {
    hide Run, Step, Next, Enabled;
    RunStart(config, states, actions);
    if i > 0 {
      RunPinning(config, states, actions, i - 1);
      RunStep(config, states, actions, i - 1);
      StepNext(states[i - 1], actions[i - 1], states[i]);
      StepEntries(states[i - 1], actions[i - 1]);
    }
  }

  /** A caller waits for the entry or is given a lease on it, or its opening succeeds. */
  ghost predicate TouchedBy(s: State, a: Action, t: State, id: nat) {
    match a
    case Acquire(_, _) => |t.holders| == |s.holders| + 1 && t.holders[|s.holders|].entry == id
    case Publish(which) => which == id && id < |t.heap| && t.heap[id].result == Opened
    case _ => false
  }

  /** A touch gives an entry the newest stamp; nothing else changes a stamp. */
  ghost predicate Stamps(s: State, a: Action, t: State) {
    && s.useCounter <= t.useCounter && |s.heap| <= |t.heap|
    && forall id: nat | id < |t.heap| ::
         if TouchedBy(s, a, t, id) then t.heap[id].lastUsed == t.useCounter > s.useCounter
         else id < |s.heap| && t.heap[id].lastUsed == s.heap[id].lastUsed
  }

  lemma HoldStamps(s: State, a: Action, id: nat, status: Status)
    requires id < |s.heap| && a.Acquire?
    ensures Stamps(s, a, Hold(s, id, status, true))
  {
  }

  lemma OpeningStamps(s: State, a: Action, ref: string)
    requires a.Acquire?
    ensures Stamps(s, a, StartOpening(s, ref))
  {
  }

  lemma EvictStamps(s: State, a: Action, v: nat, ref: string)
    requires v < |s.heap| && a.Acquire?
    ensures Stamps(s, a, StartOpening(Evict(s, v), ref))
  {
  }

  lemma NoStamps(s: State, a: Action)
    requires a.Acquire?
    ensures Stamps(s, a, s)
  {
  }

  lemma AcquireStamps(s: State, ref: string, victim: Option<nat>)
    ensures Stamps(s, Acquire(ref, victim), AcquireStep(s, ref, victim))
  {
    hide Hold, Evict, StartOpening, Stamps;
    var a := Acquire(ref, victim);
    NoStamps(s, a);
    if !s.closed && Known(s, ref) {
      HoldStamps(s, a, s.entries[ref], if s.heap[s.entries[ref]].ready then Leased else Waiting);
    } else if !s.closed {
      OpeningStamps(s, a, ref);
      if victim.Some? && victim.value < |s.heap| { EvictStamps(s, a, victim.value, ref); }
    }
  }

  lemma PublishStamps(s: State, id: nat)
    requires Inv(s) && id in s.openers
    ensures id < |s.heap| && Stamps(s, Publish(id), PublishStep(s, id))
  {
    OpeningNotRemoved(s, id);
  }

  lemma HolderStamps(s: State, h: nat, a: Action)
    requires h < |s.holders| && s.holders[h].entry < |s.heap| && a in {Cancel(h), Resume(h), Release(h)}
    ensures Stamps(s, a, SetHolder(ReleaseEntry(s, s.holders[h].entry), h, Gone)) && Stamps(s, a, ResumeStep(s, h))
    ensures Stamps(s, a, s)
  {
  }

  lemma StepStamps(s: State, a: Action)
    requires Inv(s) && Enabled(s, a)
    ensures Stamps(s, a, Next(s, a))
  {
    hide Inv, IsVictim, AcquireStep, PublishStep, ResumeStep, ReleaseEntry, SetHolder;
    match a
    case Acquire(ref, victim) => AcquireStamps(s, ref, victim);
    case Publish(id) => PublishStamps(s, id);
    case Cancel(h) => HolderStamps(s, h, a);
    case Resume(h) => HolderStamps(s, h, a);
    case Release(h) => HolderStamps(s, h, a);
    case _ =>
  }

  // ---------------------------------------------------------------- recency over a run

  ghost predicate Touches(states: seq<State>, actions: seq<Action>, m: nat, id: nat) {
    m < |actions| && m + 1 < |states| && TouchedBy(states[m], actions[m], states[m + 1], id)
  }

  /** The last action before position `k` that acquired the entry or finished opening it. */
  ghost predicate LastTouch(states: seq<State>, actions: seq<Action>, k: nat, id: nat, m: nat) {
    m < k && Touches(states, actions, m, id) && forall j: nat | m < j < k :: !Touches(states, actions, j, id)
  }

  ghost predicate StampedAt(states: seq<State>, actions: seq<Action>, k: nat, id: nat, m: nat)
    requires k < |states| && id < |states[k].heap|
  {
    LastTouch(states, actions, k, id, m) && m + 1 < |states| && states[k].heap[id].lastUsed == states[m + 1].useCounter
  }

  lemma StampNext(states: seq<State>, actions: seq<Action>, k: nat, id: nat, m: nat)
    requires |states| == |actions| + 1 && k + 1 < |states|
    requires id < |states[k].heap| && id < |states[k + 1].heap|
    requires StampedAt(states, actions, k, id, m) && states[k + 1].heap[id].lastUsed == states[k].heap[id].lastUsed
    requires !Touches(states, actions, k, id)
    ensures StampedAt(states, actions, k + 1, id, m)
  {
    hide TouchedBy;
  }

  /** Every entry but the default project has a last touch, and its stamp is that touch's. */
  lemma {:induction false} LastTouchExists(
    config: Config, states: seq<State>, actions: seq<Action>, k: nat, id: nat)
    returns (m: nat)
    requires Run(config, states, actions) && k < |states| && id < |states[k].heap| && !HasDefault(config, id)
    ensures StampedAt(states, actions, k, id, m)
  {
    hide Inv, Stamps, TouchedBy, Run, Step;
    RunStart(config, states, actions);
    if k == 0 { NothingBefore(config, id); }
    var i := k - 1;
    RunSafe(config, states, actions, i);
    RunStep(config, states, actions, i);
    StepNext(states[i], actions[i], states[k]);
    StepStamps(states[i], actions[i]);
    if Touches(states, actions, i, id) {
      m := i;
      TouchStamp(states[i], actions[i], states[k], id);
    } else {
      UntouchedBefore(states[i], actions[i], states[k], id);
      m := LastTouchExists(config, states, actions, i, id);
      StampNext(states, actions, i, id, m);
    }
  }

  lemma NothingBefore(config: Config, id: nat)
    ensures id < |Initial(config).heap| ==> HasDefault(config, id)
  {
  }

  lemma TouchStamp(s: State, a: Action, t: State, id: nat)
    requires Stamps(s, a, t) && id < |t.heap| && TouchedBy(s, a, t, id)
    ensures t.heap[id].lastUsed == t.useCounter > s.useCounter
  {
  }

  lemma UntouchedBefore(s: State, a: Action, t: State, id: nat)
    requires Stamps(s, a, t) && id < |t.heap| && !TouchedBy(s, a, t, id)
    ensures id < |s.heap| && t.heap[id].lastUsed == s.heap[id].lastUsed
  {
  }

  lemma StampsRise(s: State, a: Action, t: State)
    requires Stamps(s, a, t)
    ensures s.useCounter <= t.useCounter
  {
  }

  lemma {:induction false} CounterRises(config: Config, states: seq<State>, actions: seq<Action>, i: nat, j: nat)
    requires Run(config, states, actions) && i <= j < |states|
    ensures states[i].useCounter <= states[j].useCounter
  {
    hide Inv, Stamps, Run, Step;
    RunStart(config, states, actions);
    if i < j {
      CounterRises(config, states, actions, i, j - 1);
      RunSafe(config, states, actions, j - 1);
      RunStep(config, states, actions, j - 1);
      StepNext(states[j - 1], actions[j - 1], states[j]);
      StepStamps(states[j - 1], actions[j - 1]);
      StampsRise(states[j - 1], actions[j - 1], states[j]);
    }
  }

  /** Stamps are in the order of the last touches. */
  lemma StampOrder(
    config: Config, states: seq<State>, actions: seq<Action>, k: nat, v: nat, w: nat, m: nat, n: nat)
    requires Run(config, states, actions) && k < |states| && v < |states[k].heap| && w < |states[k].heap|
    requires StampedAt(states, actions, k, v, m) && StampedAt(states, actions, k, w, n)
    requires states[k].heap[v].lastUsed < states[k].heap[w].lastUsed
    ensures m < n
  {
    hide Run, Touches;
    if n <= m { CounterRises(config, states, actions, n + 1, m + 1); }
  }

  // ---------------------------------------------------------------- what may be evicted

  ghost predicate InMap(s: State, id: nat) { exists ref :: ref in s.entries && s.entries[ref] == id }

  ghost predicate Unused(holders: seq<Holder>, id: nat) {
    forall h | 0 <= h < |holders| && holders[h].entry == id :: holders[h].status == Gone
  }

  /** An opened project in the map that nobody waits for or holds a lease on, other than the default. */
  ghost predicate Evictable(config: Config, s: State, id: nat) {
    && InMap(s, id) && id !in s.openers && Unused(s.holders, id) && !HasDefault(config, id)
  }

  lemma {:induction false} UnusedExact(holders: seq<Holder>, id: nat)
    ensures Uses(holders, id) == 0 <==> Unused(holders, id)
  {
    if holders != [] {
      var last := |holders| - 1;
      UnusedExact(holders[..last], id);
      assert holders == holders[..last] + [holders[last]];
      assert Unused(holders, id) <==>
             Unused(holders[..last], id) && (holders[last].entry == id ==> holders[last].status == Gone);
    }
  }

  lemma InMapExact(s: State, id: nat)
    requires MapSound(s)
    ensures InMap(s, id) <==> id < |s.heap| && Mapped(s, id)
    ensures InMap(s, id) ==> !s.heap[id].removed
  {
  }

  /** The test of `evictIdleEntryLocked` is met by exactly these. */
  lemma IdleExact(config: Config, s: State, id: nat)
    requires Inv(s) && Pinning(config, s)
    ensures Idle(s, id) <==> Evictable(config, s, id)
  {
    hide ClocksDistinct, ClosingSound, NoUseAfterClose, BundlesAccounted;
    InMapExact(s, id);
    UnusedExact(s.holders, id);
    if id < |s.heap| {
      assert s.heap[id].active == Uses(s.holders, id);
    }
  }

  ghost predicate TouchedAfter(states: seq<State>, actions: seq<Action>, k: nat, m: nat, id: nat) {
    exists n: nat :: LastTouch(states, actions, k, id, n) && m < n
  }

  ghost predicate OthersLater(
    config: Config, states: seq<State>, actions: seq<Action>, k: nat, v: nat, m: nat)
    requires k < |states|
  {
    && LastTouch(states, actions, k, v, m)
    && forall w: nat | Evictable(config, states[k], w) && w != v :: TouchedAfter(states, actions, k, m, w)
  }

  /** Of all that may be evicted, the one acquired or opened furthest back in the run. */
  ghost predicate FurthestBack(config: Config, states: seq<State>, actions: seq<Action>, k: nat, v: nat)
    requires k < |states|
  {
    Evictable(config, states[k], v) && exists m: nat :: OthersLater(config, states, actions, k, v, m)
  }

  lemma VictimOlder(s: State, v: nat, w: nat)
    requires Inv(s) && IsVictim(s, Some(v)) && Idle(s, w) && w != v
    ensures v < |s.heap| && w < |s.heap| && s.heap[v].lastUsed < s.heap[w].lastUsed
  {
  }

  lemma OlderTouch(
    config: Config, states: seq<State>, actions: seq<Action>, k: nat, v: nat, w: nat, m: nat)
    requires Run(config, states, actions) && k < |states| && v < |states[k].heap|
    requires StampedAt(states, actions, k, v, m) && IsVictim(states[k], Some(v))
    requires Evictable(config, states[k], w) && w != v
    ensures TouchedAfter(states, actions, k, m, w)
  {
    hide Run, IsVictim, Idle, LastTouch, Inv, Pinning;
    RunSafe(config, states, actions, k);
    RunPinning(config, states, actions, k);
    IdleExact(config, states[k], w);
    VictimOlder(states[k], v, w);
    var n := LastTouchExists(config, states, actions, k, w);
    StampOrder(config, states, actions, k, v, w, m, n);
  }

  lemma VictimIdle(s: State, v: nat)
    requires IsVictim(s, Some(v))
    ensures Idle(s, v) && v < |s.heap|
  {
  }

  /** The least stamp among the idle entries is the touch furthest back. */
  lemma VictimFurthest(config: Config, states: seq<State>, actions: seq<Action>, k: nat, v: nat)
    requires Run(config, states, actions) && k < |states| && IsVictim(states[k], Some(v))
    ensures FurthestBack(config, states, actions, k, v)
  {
    hide Run, IsVictim, Idle, LastTouch, Inv, Pinning, TouchedAfter;
    RunSafe(config, states, actions, k);
    RunPinning(config, states, actions, k);
    VictimIdle(states[k], v);
    IdleExact(config, states[k], v);
    var m := LastTouchExists(config, states, actions, k, v);
    forall w: nat | Evictable(config, states[k], w) && w != v ensures TouchedAfter(states, actions, k, m, w) {
      OlderTouch(config, states, actions, k, v, w, m);
    }
    assert OthersLater(config, states, actions, k, v, m);
  }

  // ---------------------------------------------------------------- what an acquisition does to the map

  /** The ref gets a new entry, in place of `gone` if any entry has to give way. */
  ghost predicate Replaces(s: State, t: State, ref: string, gone: Option<nat>) {
    && |t.heap| == |s.heap| + 1 && ref in t.entries && t.entries[ref] == |s.heap|
    && (forall r | r != ref :: r in t.entries <==> r in s.entries && gone != Some(s.entries[r]))
    && (forall r | r != ref && r in t.entries :: t.entries[r] == s.entries[r])
    && t.closing == s.closing + match gone case None => {} case Some(v) => {v}
  }

  ghost predicate EvictsFurthest(
    config: Config, states: seq<State>, actions: seq<Action>, k: nat, ref: string, v: nat)
    requires k + 1 < |states|
  {
    FurthestBack(config, states, actions, k, v) && Replaces(states[k], states[k + 1], ref, Some(v))
  }

  lemma EvictReplaces(s: State, v: nat, ref: string)
    requires MapSound(s) && Idle(s, v) && ref !in s.entries
    ensures Replaces(s, StartOpening(Evict(s, v), ref), ref, Some(v))
  {
  }

  lemma OpeningReplaces(s: State, ref: string)
    requires ref !in s.entries
    ensures Replaces(s, StartOpening(s, ref), ref, None)
  {
  }

  lemma KnownExact(s: State, ref: string)
    requires MapSound(s)
    ensures Known(s, ref) <==> ref in s.entries
  {
  }

  lemma InvMap(s: State)
    requires Inv(s)
    ensures MapSound(s) && LifeCycle(s)
  {
  }

  /** What a caller gets of an entry: a place in the queue while it is being opened, and then a lease. */
  ghost function WaitsOrHolds(s: State, id: nat): Status { if id in s.openers then Waiting else Leased }

  lemma AcquireVictim(s: State, ref: string, victim: Option<nat>)
    requires Enabled(s, Acquire(ref, victim))
    ensures IsVictim(s, victim) && Next(s, Acquire(ref, victim)) == AcquireStep(s, ref, victim)
  {
  }

  lemma NoneEvictable(config: Config, s: State)
    requires Inv(s) && Pinning(config, s) && IsVictim(s, None)
    ensures forall w: nat :: !Evictable(config, s, w)
  {
    hide Inv, Pinning, Idle, Evictable;
    forall w: nat ensures !Evictable(config, s, w) {
      IdleExact(config, s, w);
      assert !Idle(s, w);
    }
  }

  /**
   What every acquisition of every run does to the map. A closed router and a full one in which nothing
   may be evicted stay as they are; a mapped project gains a user; otherwise the ref gets a new entry,
   for which a full map gives up the evictable project acquired or opened furthest back.
   */
  lemma AcquireExact(config: Config, states: seq<State>, actions: seq<Action>, k: nat)
    requires Run(config, states, actions) && k < |actions| && actions[k].Acquire?
    ensures |states| == |actions| + 1
    ensures var s, t, ref := states[k], states[k + 1], actions[k].ref;
            if s.closed then t == s
            else if ref in s.entries then
              && t.entries == s.entries && t.closing == s.closing
              && t.holders == s.holders + [Holder(s.entries[ref], WaitsOrHolds(s, s.entries[ref]))]
            else if |s.entries| < config.capacity then Replaces(s, t, ref, None)
            else if exists w: nat :: Evictable(config, s, w) then
              exists v: nat :: EvictsFurthest(config, states, actions, k, ref, v)
            else t == s
  {
    hide Run, Step, Inv, Idle, IsVictim, Hold, Evict, StartOpening, FurthestBack, Replaces, Evictable, Enabled, Next;
    hide Known, MapSound;
    RunStart(config, states, actions);
    RunSafe(config, states, actions, k);
    RunPinning(config, states, actions, k);
    RunStep(config, states, actions, k);
    StepNext(states[k], actions[k], states[k + 1]);
    var s, ref, victim := states[k], actions[k].ref, actions[k].victim;
    AcquireVictim(s, ref, victim);
    InvMap(s);
    KnownExact(s, ref);
    if s.closed {
    } else if ref in s.entries {
      HeldOnMapped(s, ref);
    } else if |s.entries| < s.capacity {
      OpeningReplaces(s, ref);
    } else if victim == None {
      NoneEvictable(config, s);
    } else {
      VictimFurthest(config, states, actions, k, victim.value);
      FurthestEvictable(config, states, actions, k, victim.value);
      VictimIdle(s, victim.value);
      EvictReplaces(s, victim.value, ref);
      assert EvictsFurthest(config, states, actions, k, ref, victim.value);
    }
  }

  lemma FurthestEvictable(config: Config, states: seq<State>, actions: seq<Action>, k: nat, v: nat)
    requires k < |states| && FurthestBack(config, states, actions, k, v)
    ensures Evictable(config, states[k], v)
  {
  }

  lemma HeldOnMapped(s: State, ref: string)
    requires MapSound(s) && LifeCycle(s) && ref in s.entries
    ensures s.entries[ref] < |s.heap|
    ensures s.heap[s.entries[ref]].ready <==> s.entries[ref] !in s.openers
    ensures var status := if s.heap[s.entries[ref]].ready then Leased else Waiting;
            var t := Hold(s, s.entries[ref], status, true);
            t.entries == s.entries && t.closing == s.closing
            && t.holders == s.holders + [Holder(s.entries[ref], status)]
  {
  }

  lemma ReplacedOnly(s: State, t: State, ref: string, gone: Option<nat>, v: nat)
    requires Replaces(s, t, ref, gone) && ref !in s.entries && InMap(s, v)
    ensures InMap(t, v) || gone == Some(v)
  {
    var r :| r in s.entries && s.entries[r] == v;
    if gone != Some(v) { assert r in t.entries && t.entries[r] == v; }
  }

  lemma SameMapStays(s: State, t: State, v: nat)
    requires t.entries == s.entries
    ensures InMap(s, v) ==> InMap(t, v)
  {
  }

  lemma AcquireLeaves(config: Config, states: seq<State>, actions: seq<Action>, k: nat, v: nat)
    requires Run(config, states, actions) && k < |actions| && actions[k].Acquire?
    requires |states| == |actions| + 1 && InMap(states[k], v) && !InMap(states[k + 1], v)
    ensures !states[k].closed && actions[k].ref !in states[k].entries && |states[k].entries| >= config.capacity
    ensures FurthestBack(config, states, actions, k, v)
  {
    hide Run, FurthestBack, Evictable, Replaces, InMap;
    AcquireExact(config, states, actions, k);
    var s, t, ref := states[k], states[k + 1], actions[k].ref;
    if t.entries == s.entries { SameMapStays(s, t, v); }
    if ref !in s.entries {
      if Replaces(s, t, ref, None) {
        ReplacedOnly(s, t, ref, None, v);
      } else {
        var w: nat :| EvictsFurthest(config, states, actions, k, ref, w);
        ReplacedOnly(s, t, ref, Some(w), v);
      }
    }
  }

  lemma PublishLeaves(s: State, id: nat, v: nat)
    requires Inv(s) && Enabled(s, Publish(id)) && InMap(s, v)
    ensures id < |s.heap|
    ensures InMap(Next(s, Publish(id)), v) || (id == v && !s.heap[id].bundle)
  {
    OpeningNotRemoved(s, id);
    var r :| r in s.entries && s.entries[r] == v;
    if !s.heap[id].bundle && id != v {
      assert s.entries[s.heap[id].ref] == id;
      assert r in PublishStep(s, id).entries;
    }
  }

  lemma OthersLeave(s: State, a: Action, v: nat)
    requires Enabled(s, a) && !a.Acquire? && !a.Publish? && InMap(s, v)
    ensures InMap(Next(s, a), v) || (a.Cleanup? && s.openingCount == 0 && s.activeCount == 0)
  {
    hide Next, Enabled, InMap;
    if !(a.Cleanup? && s.openingCount == 0 && s.activeCount == 0) {
      OthersKeepMap(s, a);
      SameMapStays(s, Next(s, a), v);
    }
  }

  lemma OthersKeepMap(s: State, a: Action)
    requires Enabled(s, a) && !a.Acquire? && !a.Publish?
    requires a.Cleanup? ==> s.openingCount != 0 || s.activeCount != 0
    ensures Next(s, a).entries == s.entries
  {
    hide IsVictim, AcquireStep, PublishStep;
    match a
    case Pin(ref) => if Known(s, ref) { PinKeepsMap(s, s.entries[ref]); }
    case Resume(h) => ResumeKeepsMap(s, h);
    case _ =>
  }

  lemma PinKeepsMap(s: State, id: nat)
    requires id < |s.heap|
    ensures Hold(s, id, Leased, false).entries == s.entries
  {
  }

  lemma ResumeKeepsMap(s: State, h: nat)
    requires h < |s.holders| && s.holders[h].entry < |s.heap|
    ensures ResumeStep(s, h).entries == s.entries
  {
  }

  /** An entry leaves the map in three ways only: evicted, never opened, or taken when the router closes. */
  lemma LeavesMap(config: Config, states: seq<State>, actions: seq<Action>, k: nat, v: nat)
    requires Run(config, states, actions) && k < |actions|
    requires |states| == |actions| + 1 && InMap(states[k], v) && !InMap(states[k + 1], v)
    ensures match actions[k]
            case Acquire(ref, _) =>
              && !states[k].closed && ref !in states[k].entries && |states[k].entries| >= config.capacity
              && FurthestBack(config, states, actions, k, v)
            case Publish(id) => id == v && id < |states[k].heap| && !states[k].heap[id].bundle
            case Cleanup => TakesMap(states, actions, k)
            case _ => false
  {
    hide Run, Step, Inv, FurthestBack, Evictable, Enabled, Next, Replaces, InMap;
    RunStart(config, states, actions);
    RunSafe(config, states, actions, k);
    RunStep(config, states, actions, k);
    StepNext(states[k], actions[k], states[k + 1]);
    var s, a, t := states[k], actions[k], states[k + 1];
    match a
    case Acquire(ref, _) =>
      AcquireLeaves(config, states, actions, k, v);
    case Publish(id) => PublishLeaves(s, id, v);
    case _ => OthersLeave(s, a, v);
  }
}
