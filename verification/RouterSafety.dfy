/**
 Safety of the project router over every run: exact counters, single-flight opening, bounded and
 unambiguous eviction, every bundle accounted for, and no use after close.
 */
module RouterSafety {
  import opened RouterModel

  // ---------------------------------------------------------------- counting

  lemma {:induction false} TotalSet(heap: seq<Entry>, id: nat, e: Entry)
    requires id < |heap|
    ensures TotalActive(heap[id := e]) == TotalActive(heap) - heap[id].active + e.active
  {
    var n := |heap| - 1;
    if id == n {
      assert heap[id := e][..n] == heap[..n];
    } else {
      TotalSet(heap[..n], id, e);
      assert heap[id := e][..n] == heap[..n][id := e];
    }
  }

  lemma TotalAppend(heap: seq<Entry>, e: Entry)
    ensures TotalActive(heap + [e]) == TotalActive(heap) + e.active
  {
    assert (heap + [e])[..|heap|] == heap;
  }

  function One(h: Holder, id: nat): nat { if h.entry == id && h.status != Gone then 1 else 0 }

  function Any(h: Holder): nat { if h.status != Gone then 1 else 0 }

  lemma UsesAppend(holders: seq<Holder>, h: Holder)
    ensures AllUses(holders + [h]) == AllUses(holders) + Any(h)
    ensures forall id: nat :: Uses(holders + [h], id) == Uses(holders, id) + One(h, id)
  {
    assert (holders + [h])[..|holders|] == holders;
  }

  lemma {:induction false} UsesSet(holders: seq<Holder>, i: nat, h: Holder, id: nat)
    requires i < |holders|
    ensures Uses(holders[i := h], id) == Uses(holders, id) - One(holders[i], id) + One(h, id)
    ensures Uses(holders, id) >= One(holders[i], id)
  {
    var n := |holders| - 1;
    if i == n {
      assert holders[i := h][..n] == holders[..n];
    } else {
      UsesSet(holders[..n], i, h, id);
      assert holders[i := h][..n] == holders[..n][i := h];
    }
  }

  lemma {:induction false} AllUsesSet(holders: seq<Holder>, i: nat, h: Holder)
    requires i < |holders|
    ensures AllUses(holders[i := h]) == AllUses(holders) - Any(holders[i]) + Any(h)
    ensures AllUses(holders) >= Any(holders[i])
  {
    var n := |holders| - 1;
    if i == n {
      assert holders[i := h][..n] == holders[..n];
    } else {
      AllUsesSet(holders[..n], i, h);
      assert holders[i := h][..n] == holders[..n][i := h];
    }
  }

  lemma {:induction false} NoUses(holders: seq<Holder>, id: nat)
    requires forall h | 0 <= h < |holders| :: holders[h].entry != id
    ensures Uses(holders, id) == 0
  {
    if holders != [] { NoUses(holders[..|holders| - 1], id); }
  }

  lemma {:induction false} AllUsesBound(holders: seq<Holder>, id: nat)
    ensures Uses(holders, id) <= AllUses(holders)
  {
    if holders != [] { AllUsesBound(holders[..|holders| - 1], id); }
  }

  // ---------------------------------------------------------------- counters, step by step

  lemma HoldCounts(s: State, id: nat, status: Status, touch: bool)
    requires CountersExact(s) && id < |s.heap| && status != Gone
    ensures CountersExact(Hold(s, id, status, touch))
  {
    var after := Hold(s, id, status, touch);
    UsesAppend(s.holders, Holder(id, status));
    TotalSet(s.heap, id, after.heap[id]);
  }

  lemma OpeningCounts(s: State, ref: string)
    requires CountersExact(s) && |s.heap| !in s.openers
    ensures CountersExact(StartOpening(s, ref))
  {
    var id := |s.heap|;
    var after := StartOpening(s, ref);
    UsesAppend(s.holders, Holder(id, Waiting));
    TotalAppend(s.heap, after.heap[id]);
    NoUses(s.holders, id);
  }

  lemma HeldPositive(s: State, h: nat)
    requires CountersExact(s) && h < |s.holders| && s.holders[h].status != Gone
    ensures var id := s.holders[h].entry; id < |s.heap| && s.heap[id].active > 0 && s.activeCount > 0
  {
    var id, gone := s.holders[h].entry, s.holders[h].(status := Gone);
    UsesSet(s.holders, h, gone, id);
    AllUsesSet(s.holders, h, gone);
  }

  /** Ending a wait or a lease: the guards against counting below zero never act. */
  lemma ReleaseCounts(s: State, h: nat)
    requires CountersExact(s) && h < |s.holders| && s.holders[h].status != Gone
    ensures var id := s.holders[h].entry;
            && id < |s.heap| && s.heap[id].active > 0 && s.activeCount > 0
            && CountersExact(SetHolder(ReleaseEntry(s, id), h, Gone))
  {
    hide AllUses, TotalActive;
    var id, gone := s.holders[h].entry, s.holders[h].(status := Gone);
    forall other: nat
      ensures Uses(s.holders[h := gone], other) == Uses(s.holders, other) - One(s.holders[h], other)
    {
      UsesSet(s.holders, h, gone, other);
    }
    HeldPositive(s, h);
    AllUsesSet(s.holders, h, gone);
    TotalSet(s.heap, id, s.heap[id].(active := s.heap[id].active - 1));
  }

  /** A waiter that becomes a lease goes on counting. */
  lemma GrantCounts(s: State, h: nat)
    requires CountersExact(s) && h < |s.holders| && s.holders[h].status == Waiting
    ensures CountersExact(SetHolder(s, h, Leased))
  {
    var leased := s.holders[h].(status := Leased);
    forall other: nat ensures Uses(s.holders[h := leased], other) == Uses(s.holders, other) {
      UsesSet(s.holders, h, leased, other);
    }
    AllUsesSet(s.holders, h, leased);
  }

  /** Rewriting an entry without touching its use count. */
  lemma SetCounts(s: State, id: nat, e: Entry)
    requires CountersExact(s) && id < |s.heap| && e.active == s.heap[id].active
    ensures CountersExact(Set(s, id, e))
  {
    TotalSet(s.heap, id, e);
  }

  // ---------------------------------------------------------------- each action keeps the invariant

  /** The states differ only in use counts and recency. */
  ghost predicate SameEntries(s: State, t: State) {
    && t.capacity == s.capacity && |t.heap| == |s.heap| && t.entries == s.entries && t.openers == s.openers
    && t.closing == s.closing && t.shut == s.shut
    && forall id: nat | id < |s.heap| ::
         t.heap[id] == s.heap[id].(active := t.heap[id].active, lastUsed := t.heap[id].lastUsed)
  }

  lemma SameEntriesKeep(s: State, t: State)
    requires MapSound(s) && LifeCycle(s) && BundlesAccounted(s) && SameEntries(s, t)
    ensures MapSound(t) && LifeCycle(t) && BundlesAccounted(t)
  {
    forall ref | ref in t.entries
      ensures t.entries[ref] < |t.heap| && t.heap[t.entries[ref]].ref == ref && !t.heap[t.entries[ref]].removed
    {
      var id := s.entries[ref];
      assert t.heap[id].ref == s.heap[id].ref && t.heap[id].removed == s.heap[id].removed;
    }
    forall id: nat | id < |t.heap| ensures Mapped(t, id) <==> Mapped(s, id) {
      assert t.heap[id].ref == s.heap[id].ref;
    }
    forall id: nat | id < |t.heap|
      ensures IsReady(t.heap[id]) == IsReady(s.heap[id]) && IsFailed(t.heap[id]) == IsFailed(s.heap[id])
              && IsOpening(t.heap[id]) == IsOpening(s.heap[id]) && t.heap[id].ready == s.heap[id].ready
    {
      assert t.heap[id] == s.heap[id].(active := t.heap[id].active, lastUsed := t.heap[id].lastUsed);
    }
  }

  // ---------------------------------------------------------------- taking and giving back a use

  lemma HoldClocks(s: State, id: nat, status: Status, touch: bool)
    requires ClocksDistinct(s) && id < |s.heap|
    ensures ClocksDistinct(Hold(s, id, status, touch))
  {
  }

  /** Only an entry in the map is ever taken into use. */
  lemma HoldUses(s: State, id: nat, status: Status, touch: bool)
    requires NoUseAfterClose(s) && BundlesAccounted(s) && id < |s.heap| && Mapped(s, id)
    requires status == Leased ==> s.heap[id].ready
    ensures NoUseAfterClose(Hold(s, id, status, touch))
  {
    assert id !in s.closing + s.shut;
  }

  lemma HoldKeeps(s: State, id: nat, status: Status, touch: bool)
    requires Inv(s) && id < |s.heap| && Mapped(s, id)
    requires if s.heap[id].ready then status == Leased else status == Waiting
    ensures Inv(Hold(s, id, status, touch))
  {
    hide MapSound, LifeCycle, BundlesAccounted, NoUseAfterClose, ClocksDistinct, CountersExact;
    var t := Hold(s, id, status, touch);
    HoldCounts(s, id, status, touch);
    SameEntriesKeep(s, t);
    HoldClocks(s, id, status, touch);
    HoldUses(s, id, status, touch);
    assert ClosingSound(t);
  }

  lemma ReleaseUses(s: State, h: nat)
    requires NoUseAfterClose(s) && h < |s.holders| && s.holders[h].entry < |s.heap|
    ensures NoUseAfterClose(SetHolder(ReleaseEntry(s, s.holders[h].entry), h, Gone))
  {
  }

  lemma ReleaseKeeps(s: State, h: nat)
    requires Inv(s) && h < |s.holders| && s.holders[h].status != Gone
    ensures s.holders[h].entry < |s.heap| && Inv(SetHolder(ReleaseEntry(s, s.holders[h].entry), h, Gone))
  {
    hide MapSound, LifeCycle, BundlesAccounted, Uses, AllUses, TotalActive;
    ReleaseCounts(s, h);
    var t := SetHolder(ReleaseEntry(s, s.holders[h].entry), h, Gone);
    SameEntriesKeep(s, t);
    ReleaseUses(s, h);
    SetClocks(s, s.holders[h].entry, t.heap[s.holders[h].entry]);
    StillOpen(s, t);
  }

  /** While anything is in use, cleanup has taken nothing. */
  lemma StillOpen(s: State, t: State)
    requires ClosingSound(s) && s.activeCount > 0
    requires t.closed == s.closed && t.cleanupStarted == s.cleanupStarted && t.cleanupDue == s.cleanupDue
    requires t.taken == s.taken && t.complete == s.complete && t.openers == s.openers
    ensures ClosingSound(t)
  {
  }

  lemma GrantKeeps(s: State, h: nat)
    requires Inv(s) && h < |s.holders| && s.holders[h].status == Waiting
    requires s.holders[h].entry < |s.heap| && s.heap[s.holders[h].entry].ready
    ensures Inv(SetHolder(s, h, Leased))
  {
    var t := SetHolder(s, h, Leased);
    GrantCounts(s, h);
    SameEntriesKeep(s, t);
    assert NoUseAfterClose(t);
  }

  // ---------------------------------------------------------------- eviction and opening

  lemma EvictMapped(s: State, v: nat)
    requires MapSound(s) && Idle(s, v)
    ensures var t := Evict(s, v);
            && MapSound(t) && |t.entries| == |s.entries| - 1
            && forall i: nat | i < |s.heap| :: Mapped(t, i) <==> Mapped(s, i) && i != v
  {
    var t := Evict(s, v);
    assert t.entries.Keys == s.entries.Keys - {s.heap[v].ref};
    assert |t.entries.Keys| == |s.entries.Keys| - 1;
    forall i: nat | i < |s.heap| ensures Mapped(t, i) <==> Mapped(s, i) && i != v {
      assert t.heap[i].ref == s.heap[i].ref;
    }
  }

  lemma EvictAccounts(s: State, v: nat)
    requires MapSound(s) && LifeCycle(s) && BundlesAccounted(s) && Idle(s, v)
    ensures MapSound(Evict(s, v)) && LifeCycle(Evict(s, v)) && BundlesAccounted(Evict(s, v))
    ensures |Evict(s, v).entries| == |s.entries| - 1
  {
    EvictMapped(s, v);
    EvictLives(s, Evict(s, v), v);
  }

  lemma EvictLives(s: State, t: State, v: nat)
    requires LifeCycle(s) && BundlesAccounted(s) && v < |s.heap| && s.heap[v].ready && Mapped(s, v)
    requires t.heap == s.heap[v := s.heap[v].(removed := true)] && t.openers == s.openers
    requires t.closing == s.closing + {v} && t.shut == s.shut
    requires forall i: nat | i < |s.heap| :: Mapped(t, i) <==> Mapped(s, i) && i != v
    ensures LifeCycle(t) && BundlesAccounted(t)
  {
    assert v !in s.closing + s.shut && v !in s.openers;
  }

  lemma EvictUses(s: State, v: nat)
    requires NoUseAfterClose(s) && Idle(s, v)
    ensures NoUseAfterClose(Evict(s, v))
  {
  }

  /** Rewriting an entry without touching its recency. */
  lemma SetClocks(s: State, id: nat, e: Entry)
    requires ClocksDistinct(s) && id < |s.heap| && e.lastUsed == s.heap[id].lastUsed
    ensures ClocksDistinct(Set(s, id, e))
  {
  }

  lemma EvictKeeps(s: State, v: nat)
    requires Inv(s) && Idle(s, v) && !s.closed
    ensures Inv(Evict(s, v)) && |Evict(s, v).entries| == |s.entries| - 1 && !Evict(s, v).closed
  {
    hide MapSound, LifeCycle, BundlesAccounted, Uses, AllUses, TotalActive;
    SetCounts(s, v, s.heap[v].(removed := true));
    EvictAccounts(s, v);
    EvictUses(s, v);
    SetClocks(s, v, s.heap[v].(removed := true));
    BeforeClosing(s, Evict(s, v));
  }

  /** Until the router closes there is nothing to say about closing. */
  lemma BeforeClosing(s: State, t: State)
    requires ClosingSound(s) && !s.closed && !t.closed && t.cleanupStarted == s.cleanupStarted
    requires t.cleanupDue == s.cleanupDue && t.taken == s.taken && t.complete == s.complete
    ensures ClosingSound(t)
  {
  }

  lemma OpeningMapped(s: State, ref: string)
    requires MapSound(s) && ref !in s.entries && |s.entries| < Room(s)
    ensures var t := StartOpening(s, ref);
            && MapSound(t) && Mapped(t, |s.heap|)
            && forall i: nat | i < |s.heap| :: Mapped(t, i) <==> Mapped(s, i)
  {
    var t, id := StartOpening(s, ref), |s.heap|;
    assert t.entries.Keys == s.entries.Keys + {ref};
    forall i: nat | i < |s.heap| ensures Mapped(t, i) <==> Mapped(s, i) {
      assert t.heap[i] == s.heap[i];
    }
  }

  lemma OpeningLives(s: State, t: State, id: nat)
    requires LifeCycle(s) && BundlesAccounted(s) && id == |s.heap| && |t.heap| == id + 1
    requires t.openers == s.openers + {id} && t.closing == s.closing && t.shut == s.shut
    requires IsOpening(t.heap[id]) && Mapped(t, id)
    requires forall i: nat | i < |s.heap| :: t.heap[i] == s.heap[i] && (Mapped(t, i) <==> Mapped(s, i))
    ensures LifeCycle(t) && BundlesAccounted(t)
  {
  }

  lemma OpeningAccounts(s: State, ref: string)
    requires MapSound(s) && LifeCycle(s) && BundlesAccounted(s) && ref !in s.entries && |s.entries| < Room(s)
    ensures var t := StartOpening(s, ref); MapSound(t) && LifeCycle(t) && BundlesAccounted(t)
  {
    OpeningMapped(s, ref);
    OpeningLives(s, StartOpening(s, ref), |s.heap|);
  }

  lemma OpeningUses(s: State, ref: string)
    requires NoUseAfterClose(s)
    ensures NoUseAfterClose(StartOpening(s, ref))
  {
  }

  lemma OpeningClocks(s: State, ref: string)
    requires ClocksDistinct(s)
    ensures ClocksDistinct(StartOpening(s, ref))
  {
  }

  lemma OpenersKnown(s: State)
    requires LifeCycle(s)
    ensures |s.heap| !in s.openers
  {
  }

  lemma OpeningKeeps(s: State, ref: string)
    requires Inv(s) && ref !in s.entries && |s.entries| < Room(s) && !s.closed
    ensures Inv(StartOpening(s, ref))
  {
    OpenersKnown(s);
    OpeningCounts(s, ref);
    OpeningAccounts(s, ref);
    OpeningUses(s, ref);
    OpeningClocks(s, ref);
    BeforeClosing(s, StartOpening(s, ref));
  }

  lemma AcquireKeeps(s: State, ref: string, victim: Option<nat>)
    requires Inv(s) && IsVictim(s, victim)
    ensures Inv(AcquireStep(s, ref, victim))
  {
    var t := AcquireStep(s, ref, victim);
    if s.closed {
      assert t == s;
    } else if Known(s, ref) {
      var status := if s.heap[s.entries[ref]].ready then Leased else Waiting;
      assert t == Hold(s, s.entries[ref], status, true);
      HoldKeeps(s, s.entries[ref], status, true);
    } else {
      assert ref !in s.entries;
      AcquireMiss(s, ref, victim);
    }
  }

  lemma AcquireMiss(s: State, ref: string, victim: Option<nat>)
    requires Inv(s) && IsVictim(s, victim) && ref !in s.entries && !s.closed
    ensures Inv(AcquireStep(s, ref, victim))
  {
    hide CountersExact, LifeCycle, BundlesAccounted, NoUseAfterClose, ClocksDistinct, ClosingSound;
    var t := AcquireStep(s, ref, victim);
    if |s.entries| < s.capacity {
      assert t == StartOpening(s, ref);
      OpeningKeeps(s, ref);
    } else if victim.Some? {
      assert t == StartOpening(Evict(s, victim.value), ref);
      EvictKeeps(s, victim.value);
      OpeningKeeps(Evict(s, victim.value), ref);
    } else {
      assert t == s;
    }
  }

  // ---------------------------------------------------------------- the opener

  /** Rewriting an entry in the map that keeps its ref leaves the map's meaning alone. */
  lemma SetMapped(s: State, id: nat, e: Entry)
    requires id < |s.heap| && e.ref == s.heap[id].ref
    ensures forall i: nat | i < |s.heap| :: Mapped(Set(s, id, e), i) <==> Mapped(s, i)
  {
    var t := Set(s, id, e);
    forall i: nat | i < |s.heap| ensures Mapped(t, i) <==> Mapped(s, i) { assert t.heap[i].ref == s.heap[i].ref; }
  }

  lemma ComposeAccounts(s: State, id: nat)
    requires MapSound(s) && LifeCycle(s) && BundlesAccounted(s) && id in s.openers
    ensures var t := Set(s, id, s.heap[id].(bundle := true)); MapSound(t) && LifeCycle(t) && BundlesAccounted(t)
  {
    SetMapped(s, id, s.heap[id].(bundle := true));
  }

  /** Rewriting an entry that stays ready if it was, and as much in use, keeps its users safe. */
  lemma SetUses(s: State, id: nat, e: Entry)
    requires NoUseAfterClose(s) && id < |s.heap| && e.active == s.heap[id].active && (s.heap[id].ready ==> e.ready)
    ensures NoUseAfterClose(Set(s, id, e))
  {
  }

  lemma ComposeKeeps(s: State, id: nat)
    requires Inv(s) && id in s.openers
    ensures Inv(Set(s, id, s.heap[id].(bundle := true)))
  {
    var e := s.heap[id].(bundle := true);
    SetCounts(s, id, e);
    ComposeAccounts(s, id);
    SetUses(s, id, e);
    SetClocks(s, id, e);
  }

  /** An opener never finds its entry removed. */
  lemma OpeningNotRemoved(s: State, id: nat)
    requires Inv(s) && id in s.openers
    ensures id < |s.heap| && !s.heap[id].removed && Mapped(s, id) && !s.heap[id].ready
  {
    assert s.entries[s.heap[id].ref] == id;
  }

  lemma PublishedAccounts(s: State, id: nat)
    requires MapSound(s) && LifeCycle(s) && BundlesAccounted(s) && id in s.openers && s.heap[id].bundle
    requires !s.heap[id].removed
    ensures var t := PublishStep(s, id); MapSound(t) && LifeCycle(t) && BundlesAccounted(t)
  {
    var t := PublishStep(s, id);
    SetMapped(s, id, t.heap[id]);
    forall i: nat | i < |s.heap| ensures Mapped(t, i) <==> Mapped(s, i) {
      assert Mapped(Set(s, id, t.heap[id]), i) <==> Mapped(s, i);
    }
    assert id !in s.closing + s.shut;
  }

  lemma FailedMapped(s: State, id: nat)
    requires MapSound(s) && id < |s.heap| && Mapped(s, id) && !s.heap[id].removed && !s.heap[id].bundle
    ensures var t := PublishStep(s, id);
            && MapSound(t)
            && forall i: nat | i < |s.heap| :: Mapped(t, i) <==> Mapped(s, i) && i != id
  {
    var t := PublishStep(s, id);
    assert t.entries.Keys == s.entries.Keys - {s.heap[id].ref};
    assert |t.entries.Keys| <= |s.entries.Keys|;
    forall i: nat | i < |s.heap| ensures Mapped(t, i) <==> Mapped(s, i) && i != id {
      assert t.heap[i].ref == s.heap[i].ref;
    }
  }

  lemma FailedLives(s: State, t: State, id: nat)
    requires LifeCycle(s) && id in s.openers && t == PublishStep(s, id) && !s.heap[id].bundle && !s.heap[id].removed
    requires forall i: nat | i < |s.heap| :: Mapped(t, i) <==> Mapped(s, i) && i != id
    ensures LifeCycle(t)
  {
    forall i | i in t.openers ensures i < |t.heap| && IsOpening(t.heap[i]) && Mapped(t, i) { assert i in s.openers; }
  }

  lemma FailedAccounts(s: State, id: nat)
    requires MapSound(s) && LifeCycle(s) && BundlesAccounted(s) && id in s.openers && !s.heap[id].bundle
    requires !s.heap[id].removed
    ensures var t := PublishStep(s, id); MapSound(t) && LifeCycle(t) && BundlesAccounted(t)
  {
    FailedMapped(s, id);
    FailedLives(s, PublishStep(s, id), id);
  }

  lemma PublishCounts(s: State, id: nat)
    requires CountersExact(s) && id in s.openers && id < |s.heap| && !s.heap[id].removed
    ensures CountersExact(PublishStep(s, id))
  {
    var t := PublishStep(s, id);
    SetCounts(s, id, t.heap[id]);
    assert |t.openers| == |s.openers| - 1;
  }

  lemma PublishClocks(s: State, id: nat)
    requires ClocksDistinct(s) && id < |s.heap|
    ensures ClocksDistinct(PublishStep(s, id))
  {
  }

  lemma PublishClosing(s: State, id: nat)
    requires ClosingSound(s) && id in s.openers && id < |s.heap|
    ensures ClosingSound(PublishStep(s, id))
  {
  }

  lemma PublishUses(s: State, id: nat)
    requires NoUseAfterClose(s) && id < |s.heap| && !s.heap[id].ready
    ensures NoUseAfterClose(PublishStep(s, id))
  {
    SetUses(s, id, PublishStep(s, id).heap[id]);
  }

  lemma PublishKeeps(s: State, id: nat)
    requires Inv(s) && id in s.openers
    ensures Inv(PublishStep(s, id))
  {
    OpeningNotRemoved(s, id);
    PublishCounts(s, id);
    if s.heap[id].bundle { PublishedAccounts(s, id); } else { FailedAccounts(s, id); }
    PublishUses(s, id);
    PublishClocks(s, id);
    PublishClosing(s, id);
  }

  // ---------------------------------------------------------------- closing

  lemma ResumeKeeps(s: State, h: nat)
    requires Inv(s) && Enabled(s, Resume(h))
    ensures Inv(ResumeStep(s, h))
  {
    var id := s.holders[h].entry;
    if s.heap[id].result == Failed || s.heap[id].result == NoResult {
      ReleaseKeeps(s, h);
    } else {
      assert id !in s.openers;
      GrantKeeps(s, h);
    }
  }

  /** A drained router has nothing left opening or in use. */
  lemma Drained(s: State)
    requires Inv(s) && s.activeCount == 0 && s.openingCount == 0
    ensures s.openers == {} && forall id: nat | id < |s.heap| :: s.heap[id].active == 0
  {
    forall id: nat | id < |s.heap| ensures s.heap[id].active == 0 { AllUsesBound(s.holders, id); }
  }

  lemma TakenAccounts(s: State)
    requires MapSound(s) && LifeCycle(s) && BundlesAccounted(s) && s.openers == {}
    requires s.openingCount == 0 && s.activeCount == 0
    ensures var t := CleanupStep(s); MapSound(t) && LifeCycle(t) && BundlesAccounted(t)
  {
    var t := CleanupStep(s);
    var all := set ref | ref in s.entries :: s.entries[ref];
    forall id: nat | id < |s.heap| ensures (Mapped(s, id) <==> id in all) && !Mapped(t, id) {
      if id in all { var ref :| ref in s.entries && s.entries[ref] == id; }
    }
    forall id | id in all ensures id < |s.heap| && IsReady(s.heap[id]) && id !in s.closing + s.shut {
      var ref :| ref in s.entries && s.entries[ref] == id;
      assert Mapped(s, id);
    }
  }

  lemma TakenUses(s: State)
    requires NoUseAfterClose(s) && MapSound(s) && forall id: nat | id < |s.heap| :: s.heap[id].active == 0
    requires s.openingCount == 0 && s.activeCount == 0
    ensures NoUseAfterClose(CleanupStep(s))
  {
    forall ref | ref in s.entries ensures s.entries[ref] < |s.heap| && s.heap[s.entries[ref]].active == 0 {}
  }

  lemma TakenClosing(s: State)
    requires ClosingSound(s) && s.cleanupDue && s.openers == {}
    ensures ClosingSound(CleanupStep(s))
  {
  }

  lemma CleanupKeeps(s: State)
    requires Inv(s) && s.cleanupDue
    ensures Inv(CleanupStep(s))
  {
    if s.openingCount == 0 && s.activeCount == 0 {
      Drained(s);
      TakenAccounts(s);
      TakenUses(s);
      TakenClosing(s);
    } else {
      SameEntriesKeep(s, CleanupStep(s));
    }
  }

  lemma SameMapped(s: State, t: State)
    requires t.heap == s.heap && t.entries == s.entries
    ensures forall i: nat | i < |s.heap| :: Mapped(t, i) <==> Mapped(s, i)
  {
  }

  lemma ShutAccounts(s: State, id: nat)
    requires MapSound(s) && LifeCycle(s) && BundlesAccounted(s) && NoUseAfterClose(s) && id in s.closing
    ensures var t := s.(closing := s.closing - {id}, shut := s.shut + {id});
            MapSound(t) && LifeCycle(t) && BundlesAccounted(t) && NoUseAfterClose(t)
  {
    var t := s.(closing := s.closing - {id}, shut := s.shut + {id});
    assert t.closing + t.shut == s.closing + s.shut;
    SameMapped(s, t);
  }

  lemma CloseBundleKeeps(s: State, id: nat)
    requires Inv(s) && id in s.closing
    ensures Inv(s.(closing := s.closing - {id}, shut := s.shut + {id}))
  {
    ShutAccounts(s, id);
  }

  // ---------------------------------------------------------------- every run

  lemma InitialInv(config: Config)
    ensures Inv(Initial(config))
  {
  }

  lemma StepKeeps(s: State, a: Action)
    requires Inv(s) && Enabled(s, a)
    ensures Inv(Next(s, a))
  {
    match a
    case Acquire(ref, victim) => AcquireKeeps(s, ref, victim);
    case Compose(id) => ComposeKeeps(s, id);
    case Publish(id) => PublishKeeps(s, id);
    case Cancel(h) => ReleaseKeeps(s, h);
    case Resume(h) => ResumeKeeps(s, h);
    case Pin(ref) =>
      if Known(s, ref) && s.heap[s.entries[ref]].ready { HoldKeeps(s, s.entries[ref], Leased, false); }
    case Release(h) => if s.holders[h].status == Leased { ReleaseKeeps(s, h); }
    case Close => FlagsKeep(s, Next(s, a));
    case StartCleanup => FlagsKeep(s, Next(s, a));
    case Cleanup => CleanupKeeps(s);
    case CloseBundle(id) => CloseBundleKeeps(s, id);
    case FinishCleanup => FlagsKeep(s, Next(s, a));
  }

  /** Steps that only set closing flags. */
  lemma FlagsKeep(s: State, t: State)
    requires Inv(s) && ClosingSound(t)
    requires t == s.(closed := t.closed, cleanupStarted := t.cleanupStarted, cleanupDue := t.cleanupDue,
                     complete := t.complete)
    ensures Inv(t)
  {
    SameEntriesKeep(s, t);
  }

  /** Every state of every run satisfies the invariant. */
  lemma {:induction false} RunSafe(config: Config, states: seq<State>, actions: seq<Action>, i: nat)
    requires Run(config, states, actions) && i < |states|
    ensures Inv(states[i])
  {
    if i == 0 {
      InitialInv(config);
    } else {
      RunSafe(config, states, actions, i - 1);
      assert Step(states[i - 1], actions[i - 1], states[i]);
      StepKeeps(states[i - 1], actions[i - 1]);
    }
  }

  // ---------------------------------------------------------------- what the invariant says

  /** The entry's bundle has been handed over for closing. */
  ghost predicate Retired(s: State, id: nat) { id in s.closing || id in s.shut }

  lemma PublishShut(s: State, id: nat)
    requires id < |s.heap|
    ensures PublishStep(s, id).closing == s.closing && PublishStep(s, id).shut == s.shut
  {
  }

  lemma ReleaseShut(s: State, id: nat)
    requires id < |s.heap|
    ensures ReleaseEntry(s, id).closing == s.closing && ReleaseEntry(s, id).shut == s.shut
    ensures ReleaseEntry(s, id).holders == s.holders
  {
  }

  lemma ResumeShut(s: State, h: nat)
    requires h < |s.holders| && s.holders[h].entry < |s.heap|
    ensures ResumeStep(s, h).closing == s.closing && ResumeStep(s, h).shut == s.shut
  {
    ReleaseShut(s, s.holders[h].entry);
    hide ReleaseEntry;
  }

  /** Any other step hands over more or nothing, and closes nothing. */
  lemma OtherStep(s: State, a: Action, t: State)
    requires Step(s, a, t) && !a.Acquire? && !a.CloseBundle?
    ensures s.closing <= t.closing && t.shut == s.shut
  {
    hide PublishStep, ResumeStep;
    match a
    case Publish(id) => PublishShut(s, id);
    case Resume(h) => ResumeShut(s, h);
    case _ =>
  }

  /** A retired bundle stays retired. */
  lemma RetiredStep(s: State, a: Action, t: State, id: nat)
    requires Step(s, a, t) && Retired(s, id)
    ensures Retired(t, id) && (id in s.shut ==> id in t.shut)
  {
    match a
    case Acquire(ref, victim) => AcquireRetires(s, ref, victim);
    case CloseBundle(_) =>
    case _ => OtherStep(s, a, t);
  }

  lemma AcquireRetires(s: State, ref: string, victim: Option<nat>)
    ensures var t := AcquireStep(s, ref, victim); s.closing <= t.closing && t.shut == s.shut
  {
  }

  lemma RunStep(config: Config, states: seq<State>, actions: seq<Action>, i: nat)
    requires Run(config, states, actions) && i < |actions|
    ensures Step(states[i], actions[i], states[i + 1])
  {
  }

  lemma RetiredNext(config: Config, states: seq<State>, actions: seq<Action>, i: nat, id: nat)
    requires Run(config, states, actions) && i < |actions| && Retired(states[i], id)
    ensures Retired(states[i + 1], id) && (id in states[i].shut ==> id in states[i + 1].shut)
  {
    RunStep(config, states, actions, i);
    RetiredStep(states[i], actions[i], states[i + 1], id);
  }

  lemma {:induction false} RetiredForever(
    config: Config, states: seq<State>, actions: seq<Action>, i: nat, j: nat, id: nat)
    requires Run(config, states, actions) && i <= j < |states| && Retired(states[i], id)
    ensures Retired(states[j], id) && (id in states[i].shut ==> id in states[j].shut)
    decreases j - i
  {
    if i < j {
      RetiredNext(config, states, actions, i, id);
      RetiredForever(config, states, actions, i + 1, j, id);
    }
  }

  lemma RetiredUnused(s: State, id: nat, h: nat)
    requires Inv(s) && Retired(s, id) && h < |s.holders| && s.holders[h].entry == id
    ensures s.holders[h].status == Gone
  {
    UsesSet(s.holders, h, s.holders[h], id);
  }

  /**
   No use after close, in every run: once an entry's bundle has been handed over for closing, by
   eviction or by cleanup, no caller waits for the entry or holds a lease on it, then or ever after.
   */
  lemma NoUseEver(
    config: Config, states: seq<State>, actions: seq<Action>, i: nat, j: nat, id: nat, h: nat)
    requires Run(config, states, actions) && i <= j < |states| && Retired(states[i], id)
    requires h < |states[j].holders| && states[j].holders[h].entry == id
    ensures states[j].holders[h].status == Gone
  {
    RetiredForever(config, states, actions, i, j, id);
    RunSafe(config, states, actions, j);
    RetiredUnused(states[j], id, h);
  }

  lemma ClosedStep(s: State, a: Action, t: State, id: nat)
    requires Step(s, a, t) && a == CloseBundle(id)
    ensures id in s.closing && id in t.shut
  {
  }

  /** No bundle is closed twice. */
  lemma ClosedOnce(config: Config, states: seq<State>, actions: seq<Action>, i: nat, j: nat, id: nat)
    requires Run(config, states, actions) && i < j < |actions| && actions[i] == CloseBundle(id)
    ensures actions[j] != CloseBundle(id)
  {
    RunStep(config, states, actions, i);
    ClosedStep(states[i], actions[i], states[i + 1], id);
    RetiredForever(config, states, actions, i + 1, j, id);
    RunSafe(config, states, actions, j);
    RunStep(config, states, actions, j);
    if actions[j] == CloseBundle(id) { ClosedStep(states[j], actions[j], states[j + 1], id); }
  }

  /** Single flight: at most one opening per ref, and an entry still opening is never removed. */
  lemma SingleFlight(s: State, id: nat, other: nat)
    requires Inv(s) && id in s.openers && other in s.openers && s.heap[id].ref == s.heap[other].ref
    ensures id == other && !s.heap[id].removed && s.entries[s.heap[id].ref] == id
  {
    OpeningNotRemoved(s, id);
  }

  /** The eviction victim does not depend on the order in which the map is visited. */
  lemma VictimUnique(s: State, v: Option<nat>, w: Option<nat>)
    requires Inv(s) && IsVictim(s, v) && IsVictim(s, w)
    ensures v == w
  {
    if v.Some? && w.Some? {
      assert s.heap[v.value].lastUsed == s.heap[w.value].lastUsed;
    }
  }

  /** A new entry never displaces another: `Acquire` creates one only for a ref the map lacks. */
  lemma NoOverwrite(s: State, ref: string, victim: Option<nat>)
    requires Inv(s) && IsVictim(s, victim) && |AcquireStep(s, ref, victim).heap| > |s.heap|
    ensures ref !in s.entries && !s.closed
  {
  }

  lemma ReleaseLowers(s: State, h: nat, a: Action)
    requires Inv(s) && Enabled(s, a) && a in {Cancel(h), Resume(h), Release(h)} && h < |s.holders|
    ensures Next(s, a).activeCount <= s.activeCount && Next(s, a).openingCount == s.openingCount
    ensures Next(s, a).closed == s.closed
  {
  }

  /** After closing, nothing starts opening, and only a maintenance pin takes an entry into use. */
  lemma AfterClosing(s: State, a: Action)
    requires Inv(s) && Enabled(s, a) && s.closed
    ensures Next(s, a).closed && Next(s, a).openingCount <= s.openingCount
    ensures Next(s, a).activeCount > s.activeCount ==> a.Pin?
  {
    hide CountersExact, MapSound, LifeCycle, BundlesAccounted, NoUseAfterClose, ClocksDistinct, ClosingSound, IsVictim;
    match a
    case Publish(id) => OpeningNotRemoved(s, id);
    case Cancel(h) => ReleaseLowers(s, h, a);
    case Resume(h) => ReleaseLowers(s, h, a);
    case Release(h) => ReleaseLowers(s, h, a);
    case _ =>
  }

  /** A completed close leaves no bundle behind: each one is closed, or already being closed by its evictor. */
  lemma CompleteMeansClosed(s: State, id: nat)
    requires Inv(s) && s.complete && id < |s.heap| && s.heap[id].ready
    ensures s.entries == map[] && id in s.closing + s.shut && (id in s.taken.value ==> id in s.shut)
  {
    assert !Mapped(s, id);
  }

  // ---------------------------------------------------------------- when closing can complete

  /** A closer found the router in use again and gave up, leaving the cleanup marked as started. */
  ghost predicate GaveUp(s: State) { s.cleanupStarted && !s.cleanupDue && s.taken.None? && !s.complete }

  ghost predicate Path(s: State, actions: seq<Action>, t: State)
    decreases |actions|
  {
    if actions == [] then s == t
    else Enabled(s, actions[0]) && Path(Next(s, actions[0]), actions[1..], t)
  }

  lemma {:induction false} GaveUpForever(s: State, actions: seq<Action>, t: State)
    requires GaveUp(s) && Path(s, actions, t)
    ensures GaveUp(t)
    decreases |actions|
  {
    if actions != [] { GaveUpForever(Next(s, actions[0]), actions[1..], t); }
  }

  function Stage(s: State): nat {
    (if s.closed then 0 else 1) + (if s.cleanupStarted then 0 else 1) + (if s.taken.Some? then 0 else 1)
    + (if s.complete then 0 else 1)
  }

  lemma {:induction false} InUseHolder(holders: seq<Holder>) returns (h: nat)
    requires AllUses(holders) > 0
    ensures h < |holders| && holders[h].status != Gone
  {
    h := |holders| - 1;
    if holders[h].status == Gone { h := InUseHolder(holders[..h]); }
  }

  /** `t` has fewer uses than `s`, or as many and fewer openings, and so on down to bundles to close. */
  ghost predicate Nearer(s: State, t: State) {
    || AllUses(t.holders) < AllUses(s.holders)
    || (t.holders == s.holders && |t.openers| < |s.openers|)
    || (t.holders == s.holders && t.openers == s.openers && Stage(t) < Stage(s))
    || (t.holders == s.holders && t.openers == s.openers && Stage(t) == Stage(s) && |t.closing| < |s.closing|)
  }

  lemma EndUse(s: State, h: nat) returns (a: Action)
    requires Inv(s) && !GaveUp(s) && h < |s.holders| && s.holders[h].status != Gone
    ensures Enabled(s, a) && !GaveUp(Next(s, a)) && Nearer(s, Next(s, a))
  {
    a := if s.holders[h].status == Waiting then Cancel(h) else Release(h);
    AllUsesSet(s.holders, h, s.holders[h].(status := Gone));
  }

  lemma EndOpening(s: State, id: nat)
    requires Inv(s) && !GaveUp(s) && id in s.openers
    ensures Enabled(s, Publish(id)) && !GaveUp(Next(s, Publish(id))) && Nearer(s, Next(s, Publish(id)))
  {
    var t := PublishStep(s, id);
    assert t.openers == s.openers - {id} && |t.openers| == |s.openers| - 1;
  }

  lemma EndBundle(s: State, id: nat)
    requires !GaveUp(s) && id in s.closing
    ensures Enabled(s, CloseBundle(id)) && !GaveUp(Next(s, CloseBundle(id))) && Nearer(s, Next(s, CloseBundle(id)))
  {
    assert |s.closing - {id}| == |s.closing| - 1;
  }

  lemma EndClosing(s: State) returns (a: Action)
    requires Inv(s) && !GaveUp(s) && !s.complete && s.activeCount == 0 && s.openingCount == 0
    ensures Enabled(s, a) && !GaveUp(Next(s, a)) && Nearer(s, Next(s, a))
  {
    if !s.closed {
      a := Close;
    } else if !s.cleanupStarted {
      a := StartCleanup;
    } else if s.cleanupDue {
      a := Cleanup;
    } else if s.taken.value * s.closing != {} {
      var id :| id in s.taken.value * s.closing;
      a := CloseBundle(id);
      EndBundle(s, id);
    } else {
      a := FinishCleanup;
    }
  }

  /** The next action towards completion. */
  lemma TowardsCompletion(s: State) returns (a: Action)
    requires Inv(s) && !GaveUp(s) && !s.complete
    ensures Enabled(s, a) && !GaveUp(Next(s, a)) && Nearer(s, Next(s, a))
  {
    if AllUses(s.holders) > 0 {
      var h := InUseHolder(s.holders);
      a := EndUse(s, h);
    } else if s.openers != {} {
      var id :| id in s.openers;
      a := Publish(id);
      EndOpening(s, id);
    } else {
      a := EndClosing(s);
    }
  }

  lemma {:induction false} CompletionPath(s: State) returns (actions: seq<Action>, t: State)
    requires Inv(s) && !GaveUp(s)
    ensures Path(s, actions, t) && t.complete
    decreases AllUses(s.holders), |s.openers|, Stage(s), |s.closing|
  {
    if s.complete {
      actions, t := [], s;
    } else {
      var a := TowardsCompletion(s);
      StepKeeps(s, a);
      var rest;
      rest, t := CompletionPath(Next(s, a));
      actions := [a] + rest;
      assert actions[1..] == rest;
    }
  }

  ghost predicate CanComplete(s: State) { exists actions, t :: Path(s, actions, t) && t.complete }

  lemma NeverCompletes(s: State)
    requires GaveUp(s)
    ensures !CanComplete(s)
  {
    forall actions, t | Path(s, actions, t) ensures !t.complete { GaveUpForever(s, actions, t); }
  }

  /** Closing can still complete exactly while no closer has given up. */
  lemma ClosingCanComplete(s: State)
    requires Inv(s)
    ensures CanComplete(s) <==> !GaveUp(s)
  {
    if GaveUp(s) {
      NeverCompletes(s);
    } else {
      var actions, t := CompletionPath(s);
      assert Path(s, actions, t);
    }
  }

  // ---------------------------------------------------------------- what defeats a close

  predicate ClosersStep(a: Action) { a.Close? || a.StartCleanup? || a.Cleanup? || a.FinishCleanup? }

  ghost predicate SameFlags(s: State, t: State) {
    && t.closed == s.closed && t.cleanupStarted == s.cleanupStarted && t.cleanupDue == s.cleanupDue
    && t.taken == s.taken && t.complete == s.complete
  }

  lemma AcquireFlags(s: State, ref: string, victim: Option<nat>)
    ensures SameFlags(s, AcquireStep(s, ref, victim))
  {
  }

  lemma PublishFlags(s: State, id: nat)
    requires id < |s.heap|
    ensures SameFlags(s, PublishStep(s, id))
  {
  }

  lemma ReleaseFlags(s: State, h: nat, status: Status)
    requires h < |s.holders| && s.holders[h].entry < |s.heap|
    ensures SameFlags(s, SetHolder(ReleaseEntry(s, s.holders[h].entry), h, status))
    ensures SameFlags(s, SetHolder(s, h, status))
  {
  }

  /** Only closers touch the closing flags. */
  lemma FlagsStay(s: State, a: Action)
    requires Enabled(s, a) && !ClosersStep(a)
    ensures SameFlags(s, Next(s, a))
  {
    match a
    case Acquire(ref, victim) => AcquireFlags(s, ref, victim);
    case Publish(id) => PublishFlags(s, id);
    case Cancel(h) => ReleaseFlags(s, h, Gone);
    case Resume(h) => ReleaseFlags(s, h, Gone); ReleaseFlags(s, h, Leased);
    case Release(h) => ReleaseFlags(s, h, Gone);
    case _ =>
  }

  /** A closer gives up in one way only: its cleanup finds an entry in use. */
  lemma GivesUp(s: State, a: Action)
    requires Inv(s) && Enabled(s, a)
    ensures GaveUp(Next(s, a)) <==> GaveUp(s) || (a == Cleanup && s.activeCount > 0)
  {
    if !ClosersStep(a) { FlagsStay(s, a); }
  }

  /** The `i`-th step of the run is a cleanup that finds an entry in use. */
  ghost predicate Blocked(states: seq<State>, actions: seq<Action>, i: nat) {
    i < |actions| && i < |states| && actions[i] == Cleanup && states[i].activeCount > 0
  }

  ghost predicate WasBlocked(states: seq<State>, actions: seq<Action>, j: nat) {
    exists i: nat :: i < j && Blocked(states, actions, i)
  }

  lemma {:induction false} GaveUpIffBlocked(config: Config, states: seq<State>, actions: seq<Action>, j: nat)
    requires Run(config, states, actions) && j < |states|
    ensures GaveUp(states[j]) <==> WasBlocked(states, actions, j)
  {
    if j > 0 {
      GaveUpIffBlocked(config, states, actions, j - 1);
      BlockedNext(config, states, actions, j - 1);
      assert WasBlocked(states, actions, j) <==>
             WasBlocked(states, actions, j - 1) || Blocked(states, actions, j - 1);
    }
  }

  lemma BlockedNext(config: Config, states: seq<State>, actions: seq<Action>, i: nat)
    requires Run(config, states, actions) && i < |actions|
    ensures GaveUp(states[i + 1]) <==> GaveUp(states[i]) || Blocked(states, actions, i)
  {
    RunStep(config, states, actions, i);
    RunSafe(config, states, actions, i);
    GivesUp(states[i], actions[i]);
  }

  /**
   Whether a close can still complete, in every state of every run: exactly as long as no cleanup
   has found an entry in use.
   */
  lemma CompletionLost(config: Config, states: seq<State>, actions: seq<Action>, j: nat)
    requires Run(config, states, actions) && j < |states|
    ensures CanComplete(states[j]) <==> !WasBlocked(states, actions, j)
  {
    RunSafe(config, states, actions, j);
    ClosingCanComplete(states[j]);
    GaveUpIffBlocked(config, states, actions, j);
  }

  /** The `m`-th step is a maintenance pin that takes an entry into use. */
  ghost predicate Pinned(states: seq<State>, actions: seq<Action>, m: nat) {
    m < |actions| && m + 1 < |states| && actions[m].Pin? && states[m + 1].activeCount > states[m].activeCount
  }

  /** At step `k` a closer found the router drained; up to step `i` it has not re-taken the mutex. */
  ghost predicate Window(states: seq<State>, actions: seq<Action>, k: nat, i: nat) {
    k < i < |states| && i <= |actions| && actions[k] == StartCleanup
    && forall j | k < j <= i :: states[j].cleanupDue
  }

  ghost predicate PinnedWithin(states: seq<State>, actions: seq<Action>, k: nat, i: nat) {
    exists m: nat :: k < m < i && Pinned(states, actions, m)
  }

  lemma DueStep(s: State, a: Action)
    requires Inv(s) && Enabled(s, a) && Next(s, a).cleanupDue
    ensures if s.cleanupDue then Next(s, a).activeCount > s.activeCount ==> a.Pin?
            else a == StartCleanup && Next(s, a).activeCount == 0
  {
    hide CountersExact, MapSound, LifeCycle, BundlesAccounted, NoUseAfterClose, ClocksDistinct;
    if s.cleanupDue {
      AfterClosing(s, a);
    } else if !ClosersStep(a) {
      FlagsStay(s, a);
    }
  }

  lemma DueNext(config: Config, states: seq<State>, actions: seq<Action>, i: nat)
    requires Run(config, states, actions) && i < |actions| && states[i + 1].cleanupDue
    ensures if states[i].cleanupDue then
              states[i].activeCount < states[i + 1].activeCount ==> Pinned(states, actions, i)
            else actions[i] == StartCleanup && states[i + 1].activeCount == 0
    ensures states[i].activeCount >= 0
  {
    RunStep(config, states, actions, i);
    RunSafe(config, states, actions, i);
    DueStep(states[i], actions[i]);
  }

  lemma StartsUndue(config: Config, states: seq<State>, actions: seq<Action>)
    requires Run(config, states, actions)
    ensures !states[0].cleanupDue && |states| == |actions| + 1
  {
  }

  lemma WindowGrows(states: seq<State>, actions: seq<Action>, k: nat, i: nat)
    requires Window(states, actions, k, i) && i < |actions| && i + 1 < |states| && states[i + 1].cleanupDue
    ensures Window(states, actions, k, i + 1)
    ensures PinnedWithin(states, actions, k, i) || Pinned(states, actions, i) ==>
              PinnedWithin(states, actions, k, i + 1)
  {
    if PinnedWithin(states, actions, k, i) {
      var m: nat :| k < m < i && Pinned(states, actions, m);
    }
  }

  lemma {:induction false} DueWindow(config: Config, states: seq<State>, actions: seq<Action>, j: nat) returns (k: nat)
    requires Run(config, states, actions) && j < |states| && states[j].cleanupDue
    ensures Window(states, actions, k, j)
    ensures states[j].activeCount > 0 ==> PinnedWithin(states, actions, k, j)
  {
    StartsUndue(config, states, actions);
    DueNext(config, states, actions, j - 1);
    if states[j - 1].cleanupDue {
      k := DueWindow(config, states, actions, j - 1);
      WindowGrows(states, actions, k, j - 1);
    } else {
      k := j - 1;
      assert Window(states, actions, k, j);
    }
  }

  /**
   Only a maintenance pin defeats a close: whenever a cleanup finds an entry in use, a pin took it
   between the closer's finding the router drained and its re-taking the mutex.
   */
  lemma BlockedByPin(config: Config, states: seq<State>, actions: seq<Action>, i: nat)
    requires Run(config, states, actions) && Blocked(states, actions, i)
    ensures exists k: nat :: Window(states, actions, k, i) && PinnedWithin(states, actions, k, i)
  {
    RunStep(config, states, actions, i);
    var k := DueWindow(config, states, actions, i);
  }

  /** Four steps in which a pin defeats a close. */
  lemma PinDefeatsClose(ref: string, capacity: int) returns (states: seq<State>)
    ensures var actions := [Close, StartCleanup, Pin(ref), Cleanup];
            Run(Config(Some(ref), capacity), states, actions) && !CanComplete(states[4])
  {
    var config := Config(Some(ref), capacity);
    var s0 := Initial(config);
    InitialInv(config);
    var s1 := Next(s0, Close);
    var s2 := Next(s1, StartCleanup);
    var s3 := Next(s2, Pin(ref));
    var s4 := Next(s3, Cleanup);
    var actions := [Close, StartCleanup, Pin(ref), Cleanup];
    states := [s0, s1, s2, s3, s4];
    assert s3.activeCount == 1;
    forall i | 0 <= i < |actions| ensures Step(states[i], actions[i], states[i + 1]) {
      assert i == 0 || i == 1 || i == 2 || i == 3;
    }
    NeverCompletes(s4);
  }
}
