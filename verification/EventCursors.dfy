/**
 Event-cursor remapping for imported projects: a sorted list of source positions with running maxima
 of the destination positions, searched by halving. Its meaning is a floor.
 */
module EventCursors {
  import opened Ordering

  datatype Entry = Entry(source: int, destination: int)

  // ---------------------------------------------------------------- the floor

  /** `r` is the greatest destination among the entries at or before the cursor, or 0 if there is none above it. */
  ghost predicate IsFloor(entries: seq<Entry>, cursor: int, r: int) {
    && r >= 0
    && (forall e | e in entries && e.source <= cursor :: e.destination <= r)
    && (r == 0 || exists e :: e in entries && e.source <= cursor && e.destination == r)
  }

  ghost function Floor(entries: seq<Entry>, cursor: int): (r: int)
    ensures IsFloor(entries, cursor, r)
  {
    if entries == [] then 0
    else
      var last := entries[|entries| - 1];
      var rest := Floor(entries[..|entries| - 1], cursor);
      if last.source <= cursor && last.destination > rest then last.destination else rest
  }

  lemma FloorUnique(entries: seq<Entry>, cursor: int, r: int)
    requires IsFloor(entries, cursor, r)
    ensures r == Floor(entries, cursor)
  {
    assert IsFloor(entries, cursor, Floor(entries, cursor));
  }

  /** Neither the order of the entries nor repetition matters. */
  lemma OrderIrrelevant(a: seq<Entry>, b: seq<Entry>, cursor: int)
    requires forall e :: e in a <==> e in b
    ensures Floor(a, cursor) == Floor(b, cursor)
  {
    assert IsFloor(b, cursor, Floor(a, cursor));
    FloorUnique(b, cursor, Floor(a, cursor));
  }

  lemma FloorMonotone(entries: seq<Entry>, c: int, d: int)
    requires c <= d
    ensures Floor(entries, c) <= Floor(entries, d)
  {
    if Floor(entries, c) > 0 {
      var e :| e in entries && e.source <= c && e.destination == Floor(entries, c);
    }
  }

  /** The event lies after the remapped cursor exactly when it lay after the original. */
  ghost predicate KeepsSides(entries: seq<Entry>, cursor: int) {
    forall e | e in entries :: e.destination > Floor(entries, cursor) <==> e.source > cursor
  }

  /** Destinations are positive and grow with the source. */
  ghost predicate Increasing(entries: seq<Entry>) {
    && (forall e | e in entries :: e.destination > 0)
    && (forall e, f | e in entries && f in entries && e.source < f.source :: e.destination < f.destination)
  }

  /** What was accounted for stays accounted for, whatever destinations were assigned. */
  lemma AccountedForStays(entries: seq<Entry>, cursor: int, e: Entry)
    requires e in entries && e.destination > Floor(entries, cursor)
    ensures e.source > cursor
  {
    assert IsFloor(entries, cursor, Floor(entries, cursor));
  }

  /** Remapping answers "did this happen after the cursor" correctly for every cursor, exactly for increasing logs. */
  lemma SidesKeptIffIncreasing(entries: seq<Entry>)
    ensures (forall cursor :: KeepsSides(entries, cursor)) <==> Increasing(entries)
  {
    if Increasing(entries) {
      forall cursor ensures KeepsSides(entries, cursor) {
        forall e | e in entries && e.source > cursor ensures e.destination > Floor(entries, cursor) {
          if Floor(entries, cursor) > 0 {
            var f :| f in entries && f.source <= cursor && f.destination == Floor(entries, cursor);
            assert f.source < e.source;
          }
        }
      }
    }
    if forall cursor :: KeepsSides(entries, cursor) {
      forall e | e in entries ensures e.destination > 0 { assert KeepsSides(entries, e.source - 1); }
      forall e, f | e in entries && f in entries && e.source < f.source ensures e.destination < f.destination {
        assert KeepsSides(entries, e.source);
      }
    }
  }

  /** Out of order, an event after the cursor is taken as accounted for. */
  lemma OutOfOrderHidesEvent()
    ensures var log := [Entry(1, 2), Entry(2, 1)];
            Floor(log, 1) == 2 && log[1].source > 1 && log[1].destination <= Floor(log, 1)
  {
    var log := [Entry(1, 2), Entry(2, 1)];
    assert log[0] in log && log[1] in log;
    FloorUnique(log, 1, 2);
  }

  // ---------------------------------------------------------------- the mapping

  datatype Mapping = Mapping(sourceIDs: seq<int>, ceilings: seq<int>)

  predicate SourceLess(a: Entry, b: Entry) { a.source < b.source }

  function NextCeiling(ceiling: int, e: Entry): int {
    if e.destination > ceiling then e.destination else ceiling
  }

  /** The running maximum over the first `n` entries. */
  ghost function Ceiling(ordered: seq<Entry>, n: nat): int
    requires n <= |ordered|
  {
    if n == 0 then 0 else NextCeiling(Ceiling(ordered, n - 1), ordered[n - 1])
  }

  /** Row `i` of the mapping holds the `i`-th source position and the running maximum up to it. */
  ghost predicate Rows(m: Mapping, ordered: seq<Entry>, n: nat)
    requires n <= |ordered|
  {
    && |m.sourceIDs| == |m.ceilings| == n
    && forall i | 0 <= i < n :: m.sourceIDs[i] == ordered[i].source && m.ceilings[i] == Ceiling(ordered, i + 1)
  }

  ghost predicate Built(m: Mapping, entries: seq<Entry>, ordered: seq<Entry>) {
    && multiset(ordered) == multiset(entries)
    && Sorted(ordered, SourceLess)
    && Rows(m, ordered, |ordered|)
  }

  ghost predicate Represents(m: Mapping, entries: seq<Entry>) {
    exists ordered :: Built(m, entries, ordered)
  }

  method NewMapping(entries: seq<Entry>) returns (m: Mapping)
    ensures Represents(m, entries)
  {
    var ordered := Sort(entries, SourceLess);
    SortContents(entries, SourceLess);
    SortSorted(entries, SourceLess);
    m := Mapping([], []);
    var ceiling := 0;
    for i := 0 to |ordered|
      invariant ceiling == Ceiling(ordered, i)
      invariant Rows(m, ordered, i)
    {
      if ordered[i].destination > ceiling { ceiling := ordered[i].destination; }
      m := Mapping(m.sourceIDs + [ordered[i].source], m.ceilings + [ceiling]);
    }
    assert Built(m, entries, ordered);
  }

  /** When the first `n` entries are those at or before the cursor, their running maximum is the floor. */
  lemma PrefixFloor(entries: seq<Entry>, ordered: seq<Entry>, cursor: int, n: nat)
    requires multiset(ordered) == multiset(entries) && n <= |ordered|
    requires forall i | 0 <= i < n :: ordered[i].source <= cursor
    requires forall i | n <= i < |ordered| :: ordered[i].source > cursor
    ensures Ceiling(ordered, n) == Floor(entries, cursor)
  {
    SameContentsSameElements(ordered, entries);
    CeilingIsFloor(ordered, cursor, n);
    forall e | e in ordered && e.source <= cursor ensures e.destination <= Ceiling(ordered, n) {
      var i :| 0 <= i < |ordered| && ordered[i] == e;
    }
    FloorUnique(entries, cursor, Ceiling(ordered, n));
  }

  lemma {:induction false} CeilingIsFloor(ordered: seq<Entry>, cursor: int, n: nat)
    requires n <= |ordered| && forall i | 0 <= i < n :: ordered[i].source <= cursor
    ensures Ceiling(ordered, n) >= 0
    ensures forall i | 0 <= i < n :: ordered[i].destination <= Ceiling(ordered, n)
    ensures Ceiling(ordered, n) == 0
            || exists e :: e in ordered && e.source <= cursor && e.destination == Ceiling(ordered, n)
  {
    if n > 0 {
      CeilingIsFloor(ordered, cursor, n - 1);
      assert ordered[n - 1] in ordered;
    }
  }

  /** `sort.Search` for the first source position beyond the cursor. */
  method FirstBeyond(sourceIDs: seq<int>, cursor: int) returns (index: nat)
    requires forall i, j | 0 <= i < j < |sourceIDs| :: sourceIDs[i] <= sourceIDs[j]
    ensures index <= |sourceIDs|
    ensures forall i | 0 <= i < index :: sourceIDs[i] <= cursor
    ensures forall i | index <= i < |sourceIDs| :: sourceIDs[i] > cursor
  {
    var low, high := 0, |sourceIDs|;
    while low < high
      invariant 0 <= low <= high <= |sourceIDs|
      invariant forall i | 0 <= i < low :: sourceIDs[i] <= cursor
      invariant forall i | high <= i < |sourceIDs| :: sourceIDs[i] > cursor
    {
      var middle := (low + high) / 2;
      if sourceIDs[middle] > cursor { high := middle; } else { low := middle + 1; }
    }
    index := low;
  }

  lemma Ascends(m: Mapping, entries: seq<Entry>, ordered: seq<Entry>)
    requires Built(m, entries, ordered)
    ensures |m.sourceIDs| == |m.ceilings|
    ensures forall i, j | 0 <= i < j < |m.sourceIDs| :: m.sourceIDs[i] <= m.sourceIDs[j]
  {
    forall i, j | 0 <= i < j < |ordered| ensures m.sourceIDs[i] <= m.sourceIDs[j] {
      assert !SourceLess(ordered[j], ordered[i]);
    }
  }

  lemma RowFloor(m: Mapping, entries: seq<Entry>, ordered: seq<Entry>, cursor: int, index: nat)
    requires Built(m, entries, ordered) && index <= |m.sourceIDs|
    requires forall i | 0 <= i < index :: m.sourceIDs[i] <= cursor
    requires forall i | index <= i < |m.sourceIDs| :: m.sourceIDs[i] > cursor
    ensures Floor(entries, cursor) == if index == 0 then 0 else m.ceilings[index - 1]
  {
    forall i | 0 <= i < |ordered| ensures ordered[i].source == m.sourceIDs[i] {}
    PrefixFloor(entries, ordered, cursor, index);
  }

  method Remap(m: Mapping, cursor: int, ghost entries: seq<Entry>) returns (r: int)
    requires Represents(m, entries)
    ensures r == Floor(entries, cursor)
  {
    ghost var ordered: seq<Entry> :| Built(m, entries, ordered);
    Ascends(m, entries, ordered);
    var index := FirstBeyond(m.sourceIDs, cursor);
    RowFloor(m, entries, ordered, cursor, index);
    if index == 0 { return 0; }
    r := m.ceilings[index - 1];
  }
}
