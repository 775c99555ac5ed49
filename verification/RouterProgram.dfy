/**
 The router's locked regions as the program runs them: fields updated in place, a loop over the map
 to find the eviction victim. Each region is one action of `RouterModel`, some of it in methods of its
 own, so every interleaving of the regions is a run, and everything proved of runs holds of the program;
 what the regions require (`MapSound`, an enabled action) holds in every state of every run.
 */
module RouterProgram {
  import opened RouterModel
  import RouterSafety

  /** What the first locked region of `Acquire` decides. */
  datatype Admission = RouterClosed | CapacityExceeded | WaitOn(holder: nat) | LeaseOf(holder: nat)

  class Router {
    const capacity: int

    var heap: seq<Entry>
    var entries: map<string, nat>
    var holders: seq<Holder>
    var openers: set<nat>
    var closing: set<nat>
    var shut: set<nat>
    var closed: bool
    var cleanupStarted: bool
    var cleanupDue: bool
    var taken: Option<set<nat>>
    var complete: bool
    var openingCount: int
    var activeCount: int
    var useCounter: int

    function View(): State
      reads this
    {
      State(capacity, heap, entries, holders, openers, closing, shut, closed, cleanupStarted, cleanupDue, taken,
            complete, openingCount, activeCount, useCounter)
    }

    /** `NewRouter`. */
    constructor (config: Config)
      ensures View() == Initial(config) && Inv(View())
    {
      heap, entries, holders, openers, closing, shut := [], map[], [], {}, {}, {};
      closed, cleanupStarted, cleanupDue, taken, complete := false, false, false, None, false;
      openingCount, activeCount, useCounter := 0, 0, 0;
      capacity := config.capacity;
      if config.defaultRef.Some? {
        useCounter := 1;
        heap := [Entry(config.defaultRef.value, true, true, true, 0, 1, false, NoResult, false)];
        entries := map[config.defaultRef.value := 0];
      }
      new;
      RouterSafety.InitialInv(config);
    }

    /** The search loop of `evictIdleEntryLocked`, in any order of the map. */
    method FindVictim() returns (victim: Option<nat>)
      requires MapSound(View())
      ensures IsVictim(View(), victim)
    {
      victim := None;
      var rest := entries.Keys;
      while rest != {}
        invariant rest <= entries.Keys
        invariant victim.Some? ==> Idle(View(), victim.value)
        invariant forall id: nat | Idle(View(), id) && heap[id].ref !in rest ::
          victim.Some? && heap[victim.value].lastUsed <= heap[id].lastUsed
        decreases rest
      {
        var key :| key in rest;
        rest := rest - {key};
        var id := entries[key];
        var entry := heap[id];
        if entry.pinned || !entry.ready || entry.removed || entry.active != 0 { continue; }
        if victim == None || entry.lastUsed < heap[victim.value].lastUsed { victim := Some(id); }
      }
    }

    /** The first locked region of `Acquire`. */
    method AcquireLocked(ref: string) returns (admission: Admission, ghost victim: Option<nat>)
      requires MapSound(View())
      modifies this
      ensures IsVictim(old(View()), victim) && View() == Next(old(View()), Acquire(ref, victim))
      ensures admission == RouterClosed <==> old(closed)
      ensures admission == CapacityExceeded <==>
                !old(closed) && ref !in old(entries) && |old(entries)| >= capacity && victim == None
      ensures admission.LeaseOf? ==>
                admission.holder == |old(holders)| < |holders| && holders[admission.holder].status == Leased
      ensures admission.WaitOn? ==>
                admission.holder == |old(holders)| < |holders| && holders[admission.holder].status == Waiting
    {
      var found := FindVictim();
      victim := found;
      if closed { return RouterClosed, victim; }
      if ref in entries {
        var opening := !heap[entries[ref]].ready;
        Touch(entries[ref], if opening then Waiting else Leased);
        return if opening then WaitOn(|holders| - 1) else LeaseOf(|holders| - 1), victim;
      }
      if |entries| >= capacity {
        if found == None { return CapacityExceeded, victim; }
        EvictEntry(found.value);
      }
      StartOpening(ref);
      return WaitOn(|holders| - 1), victim;
    }

    /** One more use of an entry in the map: counted, and stamped as the most recent. */
    method Touch(id: nat, status: Status)
      requires id < |heap|
      modifies this
      ensures View() == Hold(old(View()), id, status, true)
    {
      useCounter := useCounter + 1;
      heap := heap[id := heap[id].(active := heap[id].active + 1, lastUsed := useCounter)];
      activeCount := activeCount + 1;
      holders := holders + [Holder(id, status)];
    }

    /** The victim leaves the map; its bundle will be closed once the mutex is released. */
    method EvictEntry(v: nat)
      requires v < |heap|
      modifies this
      ensures View() == Evict(old(View()), v)
    {
      var ref := heap[v].ref;
      entries := map r | r in entries && r != ref :: entries[r];
      heap := heap[v := heap[v].(removed := true)];
      closing := closing + {v};
    }

    /** The new entry in the map, opening and not yet in use. */
    method AddEntry(ref: string) returns (id: nat)
      modifies `heap, `entries, `openers, `openingCount, `useCounter
      ensures id == |old(heap)| && useCounter == old(useCounter) + 1
      ensures heap == old(heap) + [Entry(ref, false, false, false, 0, useCounter, false, NoResult, false)]
      ensures entries == old(entries)[ref := id] && openers == old(openers) + {id}
      ensures openingCount == old(openingCount) + 1
    {
      id, useCounter := |heap|, useCounter + 1;
      heap := heap + [Entry(ref, false, false, false, 0, useCounter, false, NoResult, false)];
      entries, openers, openingCount := entries[ref := id], openers + {id}, openingCount + 1;
    }

    /** The new entry and its first waiter: its recency is stamped twice. */
    method StartOpening(ref: string)
      modifies this
      ensures View() == RouterModel.StartOpening(old(View()), ref)
    {
      var id := AddEntry(ref);
      Touch(id, Waiting);
      assert heap == old(heap) + [Entry(ref, false, false, false, 1, useCounter, false, NoResult, false)];
    }

    /** The opener's locked region, after opening succeeded (`bundle` stored) or failed. */
    method PublishOpening(id: nat)
      requires id in openers && id < |heap|
      modifies this
      ensures View() == Next(old(View()), Publish(id))
    {
      openers := openers - {id};
      if heap[id].removed { return; }
      if !heap[id].bundle { DropFailed(id); } else { MarkReady(id); }
    }

    /** A failed entry leaves the map. */
    method DropFailed(id: nat)
      requires id < |heap|
      modifies `heap, `entries, `openingCount
      ensures heap == old(heap)[id := old(heap[id]).(result := Failed, removed := true, done := true)]
      ensures entries == map r | r in old(entries) && r != old(heap[id]).ref :: old(entries)[r]
      ensures openingCount == old(openingCount) - 1
    {
      var ref := heap[id].ref;
      entries := map r | r in entries && r != ref :: entries[r];
      heap, openingCount := heap[id := heap[id].(result := Failed, removed := true, done := true)], openingCount - 1;
    }

    /** An opened entry becomes ready, and the most recent. */
    method MarkReady(id: nat)
      requires id < |heap|
      modifies `heap, `openingCount, `useCounter
      ensures useCounter == old(useCounter) + 1 && openingCount == old(openingCount) - 1
      ensures heap == old(heap)[id := old(heap[id]).(result := Opened, ready := true, done := true,
                                                     lastUsed := useCounter)]
    {
      useCounter := useCounter + 1;
      heap := heap[id := heap[id].(result := Opened, ready := true, done := true, lastUsed := useCounter)];
      openingCount := openingCount - 1;
    }

    /** `releaseEntryLocked`. */
    method ReleaseEntry(id: nat)
      requires id < |heap|
      modifies this`heap, this`activeCount
      ensures View() == RouterModel.ReleaseEntry(old(View()), id)
    {
      var entry := heap[id];
      heap := heap[id := entry.(active := if entry.active > 0 then entry.active - 1 else entry.active)];
      if activeCount > 0 { activeCount := activeCount - 1; }
    }

    /** A waiter whose context ends gives its use back. */
    method CancelWait(h: nat)
      requires Enabled(View(), Cancel(h))
      modifies this
      ensures View() == Next(old(View()), Cancel(h))
    {
      ReleaseEntry(holders[h].entry);
      holders := holders[h := holders[h].(status := Gone)];
    }

    /** A waiter resumes once the opening is done: a lease if it succeeded, nothing otherwise. */
    method ResumeWait(h: nat) returns (leased: bool)
      requires Enabled(View(), Resume(h))
      modifies this
      ensures View() == Next(old(View()), Resume(h))
      ensures leased <==> old(heap[holders[h].entry].result) == Opened
    {
      var id := holders[h].entry;
      if heap[id].result != Opened {
        ReleaseEntry(id);
        holders := holders[h := holders[h].(status := Gone)];
        return false;
      }
      holders := holders[h := holders[h].(status := Leased)];
      return true;
    }

    /** `pinReadyEntry`: takes a use without touching recency, whether or not the router is closed. */
    method PinReadyEntry(ref: string) returns (pinned: bool)
      requires MapSound(View())
      modifies this
      ensures View() == Next(old(View()), Pin(ref))
      ensures pinned <==> ref in old(entries) && old(heap[entries[ref]].ready)
    {
      if ref !in entries { return false; }
      var id := entries[ref];
      if !heap[id].ready || heap[id].removed { return false; }
      PinEntry(id);
      return true;
    }

    /** One more use that leaves no mark on recency. */
    method PinEntry(id: nat)
      requires id < |heap|
      modifies this
      ensures View() == Hold(old(View()), id, Leased, false)
    {
      heap, activeCount := heap[id := heap[id].(active := heap[id].active + 1)], activeCount + 1;
      holders := holders + [Holder(id, Leased)];
    }

    /** `routerLease.Release`: the first call gives the use back, later calls do nothing. */
    method ReleaseLease(h: nat)
      requires Enabled(View(), Release(h))
      modifies this
      ensures View() == Next(old(View()), Release(h))
      ensures old(holders[h].status) == Gone ==> View() == old(View())
    {
      if holders[h].status == Gone { return; }
      ReleaseEntry(holders[h].entry);
      holders := holders[h := holders[h].(status := Gone)];
    }

    /** `Close`: mark the router closed, and start the cleanup when it is drained. */
    method CloseLocked() returns (started: bool)
      modifies this
      ensures var marked := Next(old(View()), Close);
              && started == (!marked.cleanupStarted && marked.openingCount == 0 && marked.activeCount == 0)
              && View() == if started then Next(marked, StartCleanup) else marked
    {
      closed := true;
      started := !cleanupStarted && openingCount == 0 && activeCount == 0;
      if started {
        cleanupStarted := true;
        cleanupDue := true;
      }
    }

    /** The first locked region of `runCleanup`, with the re-check that keeps a late pin safe. */
    method CleanupLocked() returns (taking: bool)
      requires cleanupDue
      modifies this
      ensures View() == Next(old(View()), Cleanup)
      ensures taking <==> old(activeCount) == 0 && old(openingCount) == 0
    {
      cleanupDue := false;
      if openingCount != 0 || activeCount != 0 { return false; }
      TakeAll();
      return true;
    }

    /** The whole map is taken for closing. */
    method TakeAll()
      modifies `entries, `closing, `taken
      ensures entries == map[] && taken == Some(set ref | ref in old(entries) :: old(entries)[ref])
      ensures closing == old(closing) + taken.value
    {
      var remaining := set ref | ref in entries :: entries[ref];
      entries := map[];
      closing := closing + remaining;
      taken := Some(remaining);
    }
  }
}
