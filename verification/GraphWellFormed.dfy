/**
 What every traversal keeps, whatever the roots, depth, budget and selection rules: nodes are distinct
 and within budget, edges are distinct usable edges between retained nodes, and finished work is
 retained only if no open work was dropped for it.
 */
module GraphWellFormed {
  import opened IssueGraph
  import opened Ordering

  // ---------------------------------------------------------------- the selection rules, by status and flag

  predicate Finished(n: Node) { n.status == Done || n.status == Cancelled }

  /** Finished work is shown if the traversal includes it, and work in review unless it is left out. */
  predicate ShownNode(t: Traversal, n: Node) {
    (Finished(n) ==> t.includeTerminal) && (n.status == Review ==> !t.excludeReview)
  }

  predicate Shown(env: Env, id: string) { id in env.nodes && ShownNode(env.t, env.nodes[id]) }

  /** Finished work other than the requested root, when open work is preferred. */
  predicate Waits(env: Env, id: string) {
    env.t.preferNonTerminal && id != env.t.explicitRoot && id in env.nodes && Finished(env.nodes[id])
  }

  /** Work that can be claimed: marked so, and not finished. */
  predicate Claimable(n: Node) { n.claimable && n.status != Done && n.status != Cancelled }

  lemma RulesExact(env: Env, id: string)
    ensures Deferrable(env, id) <==> Waits(env, id)
    ensures Excluded(env, id) <==> !Shown(env, id)
    ensures AllowedNode(env, id, true) <==> id in env.nodes && (id == env.t.explicitRoot || Shown(env, id))
    ensures AllowedNode(env, id, false) <==> Shown(env, id)
  {
  }

  /** The last node with its ID, which is the one that counts. */
  ghost predicate Latest(nodes: seq<Node>, n: Node) { exists i: nat :: LatestAt(nodes, i, n) }

  predicate LatestAt(nodes: seq<Node>, i: nat, n: Node) {
    i < |nodes| && nodes[i] == n && forall j | i < j < |nodes| :: nodes[j].id != n.id
  }

  /** The relations a traversal follows. */
  predicate Related(t: Traversal, e: Edge) {
    e.kind in t.relationTypes || (t.includeHierarchy && e.kind == "contains")
  }

  lemma LatestStep(nodes: seq<Node>, n: Node)
    requires nodes != []
    ensures var last := |nodes| - 1;
            Latest(nodes, n) <==> if nodes[last].id == n.id then nodes[last] == n else Latest(nodes[..last], n)
  {
    var last := |nodes| - 1;
    if nodes[last] == n { assert LatestAt(nodes, last, n); }
    if Latest(nodes, n) {
      var i: nat :| LatestAt(nodes, i, n);
      assert nodes[last].id != n.id ==> LatestAt(nodes[..last], i, n);
    }
    if nodes[last].id != n.id && Latest(nodes[..last], n) {
      var i: nat :| LatestAt(nodes[..last], i, n);
      assert nodes[..last][i] == nodes[i];
      forall j | i < j < |nodes| ensures nodes[j].id != n.id {
        if j < last { assert nodes[..last][j] == nodes[j]; }
      }
      assert LatestAt(nodes, i, n);
    }
  }

  lemma {:induction false} ByIDLatest(nodes: seq<Node>, n: Node)
    ensures n.id in NodesByID(nodes) && NodesByID(nodes)[n.id] == n <==> Latest(nodes, n)
  {
    hide LatestAt;
    if nodes == [] {
      NoneLatest(n);
    } else {
      ByIDLatest(nodes[..|nodes| - 1], n);
      LatestStep(nodes, n);
    }
  }

  lemma NoneLatest(n: Node)
    ensures !Latest([], n)
  {
  }

  /** What the traversal reads of a snapshot: the latest node of each ID, and the related edges between known nodes. */
  lemma EnvExact(snapshot: Snapshot, t: Traversal)
    ensures var env := MakeEnv(snapshot, t);
            && env.t == t
            && (forall n: Node :: n.id in env.nodes && env.nodes[n.id] == n <==> Latest(snapshot.nodes, n))
            && (forall id | id in env.nodes :: env.nodes[id].id == id)
            && (forall e :: e in env.edges
                  <==> e in snapshot.edges && Related(t, e) && e.source in env.nodes && e.target in env.nodes)
  {
    forall n: Node
      ensures n.id in NodesByID(snapshot.nodes) && NodesByID(snapshot.nodes)[n.id] == n <==> Latest(snapshot.nodes, n)
    {
      ByIDLatest(snapshot.nodes, n);
    }
  }

  // ---------------------------------------------------------------- neighbours

  lemma {:induction false} NeighborListExact(edges: seq<Edge>, u: string, env: Env)
    ensures forall n :: n in NeighborList(edges, u, env) <==>
              n.edge in edges && Far(n.edge, u, env.t.direction) == n.id
              && n.id != "" && n.id in env.nodes && n.sequence == env.nodes[n.id].sequence
  {
    if edges != [] {
      NeighborListExact(edges[..|edges| - 1], u, env);
      assert edges == edges[..|edges| - 1] + [edges[|edges| - 1]];
    }
  }

  /** The neighbours of a node are exactly where its edges lead. */
  lemma NeighborsExact(env: Env, u: string)
    ensures forall n :: n in GraphNeighbors(env, u) <==>
              Leads(env, n.edge, u, n.id) && n.sequence == env.nodes[n.id].sequence
  {
    var incident := Incident(env.edges, u);
    NeighborListExact(incident, u, env);
    SortContents(NeighborList(incident, u, env), NeighborBefore);
    SameContentsSameElements(GraphNeighbors(env, u), NeighborList(incident, u, env));
  }

  /** Edge type, then issue number, then ID. */
  ghost predicate NeighborPrecedes(a: Neighbor, b: Neighbor) {
    || Precedes(a.edge.kind, b.edge.kind)
    || (a.edge.kind == b.edge.kind
        && (a.sequence < b.sequence || (a.sequence == b.sequence && Precedes(a.id, b.id))))
  }

  lemma NeighborOrderExact(a: Neighbor, b: Neighbor)
    ensures NeighborBefore(a, b) <==> NeighborPrecedes(a, b)
  {
    hide KeyLess, Precedes;
    var x, y := [Name(a.id)] + [], [Name(b.id)] + [];
    assert NeighborKey(a) == [Name(a.edge.kind)] + ([Count(a.sequence)] + x);
    assert NeighborKey(b) == [Name(b.edge.kind)] + ([Count(b.sequence)] + y);
    NameFirst(a.edge.kind, b.edge.kind, [Count(a.sequence)] + x, [Count(b.sequence)] + y);
    CountFirst(a.sequence, b.sequence, x, y);
    NameFirst(a.id, b.id, [], []);
    NothingLess();
  }

  /** Neighbours come in order of edge type, issue number and ID. */
  lemma NeighborsSorted(env: Env, u: string)
    ensures Sorted(GraphNeighbors(env, u), NeighborBefore)
    ensures forall i, j | 0 <= i < j < |GraphNeighbors(env, u)| ::
              !NeighborPrecedes(GraphNeighbors(env, u)[j], GraphNeighbors(env, u)[i])
  {
    ByKey(NeighborKey, NeighborBefore);
    SortSorted(NeighborList(Incident(env.edges, u), u, env), NeighborBefore);
    forall a, b ensures NeighborBefore(a, b) <==> NeighborPrecedes(a, b) { NeighborOrderExact(a, b); }
  }

  // ---------------------------------------------------------------- the invariant

  ghost predicate Distinct<T>(s: seq<T>) { forall i, j | 0 <= i < j < |s| :: s[i] != s[j] }

  /** A list without repetitions is no longer than the set its elements come from. */
  lemma {:induction false} DistinctFits(s: seq<string>, all: set<string>)
    requires Distinct(s) && forall x | x in s :: x in all
    ensures |s| <= |all|
  {
    if s != [] {
      var n := |s| - 1;
      assert s[n] in s && forall x | x in s[..n] :: x in s;
      DistinctFits(s[..n], all - {s[n]});
    }
  }

  ghost predicate EdgesKept(env: Env, st: State) {
    && Distinct(st.edges)
    && (forall e :: e in st.edges <==> e in st.seenEdges)
    && (forall e | e in st.seenEdges :: e in env.edges && e.source in st.visited && e.target in st.visited)
  }

  ghost predicate NodesKept(env: Env, budget: int, st: State) {
    && Distinct(st.retained)
    && (forall id :: id in st.retained <==> id in st.visited)
    && st.visited <= env.nodes.Keys
    && (st.retained != [] ==> |st.retained| <= budget)
    && (st.truncated ==> |st.retained| >= budget)
  }

  ghost predicate DeferredKept(env: Env, st: State) {
    && Distinct(st.deferred)
    && (forall id | id in st.deferred :: id in st.deferredSeen && AllowedNode(env, id, false))
    && (forall id | id in st.deferredSeen :: Deferrable(env, id))
    && (forall q | q in st.queue :: q.id in env.nodes)
  }

  /** No includable finished node that was met is forgotten. */
  ghost predicate DeferredAll(env: Env, st: State) {
    forall id | id in st.deferredSeen && AllowedNode(env, id, false) :: id in st.deferred
  }

  /** In the first pass no deferrable node is retained. */
  ghost predicate Invariant(env: Env, budget: int, st: State) {
    && EdgesKept(env, st) && NodesKept(env, budget, st) && DeferredKept(env, st) && DeferredAll(env, st)
    && (forall id | id in st.visited :: !Deferrable(env, id) && AllowedNode(env, id, true))
    && (st.budgetExhausted <==> st.truncated)
  }

  lemma AddNodeNodes(env: Env, budget: int, st: State, id: string, depth: nat, root: bool)
    requires NodesKept(env, budget, st)
    ensures NodesKept(env, budget, AddNode(env, budget, st, id, depth, root).0)
  {
    var after := AddNode(env, budget, st, id, depth, root).0;
    assert forall x :: x in st.retained + [id] <==> x in st.retained || x == id;
  }

  lemma AddNodeDeferred(env: Env, budget: int, st: State, id: string, depth: nat, root: bool)
    requires DeferredKept(env, st)
    ensures DeferredKept(env, AddNode(env, budget, st, id, depth, root).0)
  {
    var after := AddNode(env, budget, st, id, depth, root).0;
    assert forall q | q in after.queue :: q in st.queue || q.id == id;
    assert forall x | x in after.deferred :: x in st.deferred || x == id;
  }

  lemma AddNodeKeeps(env: Env, budget: int, st: State, id: string, depth: nat, root: bool)
    requires Invariant(env, budget, st)
    ensures var (after, added) := AddNode(env, budget, st, id, depth, root);
            && Invariant(env, budget, after) && st.visited <= after.visited
            && (added <==> id in after.visited)
            && (st.truncated ==> after.truncated)
  {
    AddNodeNodes(env, budget, st, id, depth, root);
    AddNodeDeferred(env, budget, st, id, depth, root);
    var after := AddNode(env, budget, st, id, depth, root).0;
    assert after.edges == st.edges && after.seenEdges == st.seenEdges && st.visited <= after.visited;
  }

  lemma AppendEdgeKeeps(env: Env, budget: int, st: State, e: Edge)
    requires EdgesKept(env, st) && e in env.edges && e.source in st.visited && e.target in st.visited
    ensures EdgesKept(env, AppendEdge(st, e))
    ensures AppendEdge(st, e) == st.(edges := AppendEdge(st, e).edges, seenEdges := st.seenEdges + {e})
  {
    if e in st.seenEdges { assert st.seenEdges + {e} == st.seenEdges; }
  }

  lemma AppendEdgeInvariant(env: Env, budget: int, st: State, e: Edge)
    requires Invariant(env, budget, st) && e in env.edges && e.source in st.visited && e.target in st.visited
    ensures Invariant(env, budget, AppendEdge(st, e)) && AppendEdge(st, e).visited == st.visited
    ensures AppendEdge(st, e).truncated == st.truncated
  {
    AppendEdgeKeeps(env, budget, st, e);
  }

  lemma LeadsBetween(env: Env, e: Edge, u: string, n: string)
    requires Leads(env, e, u, n)
    ensures e in env.edges && (e.source == u || e.source == n) && (e.target == u || e.target == n)
  {
  }

  lemma VisitKeeps(env: Env, budget: int, st: State, current: Queued, n: Neighbor)
    requires Invariant(env, budget, st) && Leads(env, n.edge, current.id, n.id)
    ensures Invariant(env, budget, Visit(env, budget, st, current, n))
    ensures st.visited <= Visit(env, budget, st, current, n).visited
    ensures st.truncated ==> Visit(env, budget, st, current, n).truncated
  {
    hide Invariant, AllowedNode, Deferrable;
    var (after, added) := AddNode(env, budget, st, n.id, current.depth + 1, false);
    if !AllowedNode(env, n.id, false) && !Deferrable(env, n.id) {
    } else if added && current.id in after.visited {
      AddNodeKeeps(env, budget, st, n.id, current.depth + 1, false);
      LeadsBetween(env, n.edge, current.id, n.id);
      AppendEdgeInvariant(env, budget, after, n.edge);
      assert Visit(env, budget, st, current, n) == AppendEdge(after, n.edge);
    } else {
      AddNodeKeeps(env, budget, st, n.id, current.depth + 1, false);
      assert Visit(env, budget, st, current, n) == after;
    }
  }

  ghost predicate NeighborsOf(env: Env, u: string, ns: seq<Neighbor>) {
    forall n | n in ns :: Leads(env, n.edge, u, n.id)
  }

  lemma {:induction false} VisitAllKeeps(env: Env, budget: int, st: State, current: Queued, ns: seq<Neighbor>)
    requires Invariant(env, budget, st) && NeighborsOf(env, current.id, ns)
    ensures Invariant(env, budget, VisitAll(env, budget, st, current, ns))
    ensures st.visited <= VisitAll(env, budget, st, current, ns).visited
    ensures st.truncated ==> VisitAll(env, budget, st, current, ns).truncated
    decreases |ns|
  {
    if ns != [] {
      VisitKeeps(env, budget, st, current, ns[0]);
      VisitAllKeeps(env, budget, Visit(env, budget, st, current, ns[0]), current, ns[1..]);
    }
  }

  lemma StepKeeps(env: Env, budget: int, st: State)
    requires Invariant(env, budget, st) && st.queue != []
    ensures Invariant(env, budget, Step(env, budget, st))
    ensures st.visited <= Step(env, budget, st).visited
    ensures st.truncated ==> Step(env, budget, st).truncated
  {
    var current := st.queue[0];
    var popped := st.(queue := st.queue[1..]);
    assert current in st.queue;
    assert Invariant(env, budget, popped);
    NeighborsExact(env, current.id);
    VisitAllKeeps(env, budget, popped, current, GraphNeighbors(env, current.id));
  }

  lemma {:induction false} DrainKeeps(env: Env, budget: int, st: State)
    requires Invariant(env, budget, st)
    ensures Invariant(env, budget, Drain(env, budget, st)) && Drain(env, budget, st).queue == []
    ensures st.visited <= Drain(env, budget, st).visited
    ensures st.truncated ==> Drain(env, budget, st).truncated
    decreases Work(env, st)
  {
    if st.queue != [] {
      StepWork(env, budget, st);
      StepKeeps(env, budget, st);
      DrainKeeps(env, budget, Step(env, budget, st));
    }
  }

  lemma RootStepKeeps(env: Env, budget: int, st: State, root: string)
    requires Invariant(env, budget, st)
    ensures Invariant(env, budget, RootStep(env, budget, st, root).0)
    ensures st.visited <= RootStep(env, budget, st, root).0.visited
    ensures st.truncated ==> RootStep(env, budget, st, root).0.truncated
  {
    AddNodeKeeps(env, budget, st, root, 0, root == env.t.explicitRoot);
    DrainKeeps(env, budget, AddNode(env, budget, st, root, 0, root == env.t.explicitRoot).0);
  }

  lemma {:induction false} FromRootsKeeps(env: Env, budget: int, st: State, i: nat)
    requires Invariant(env, budget, st)
    ensures Invariant(env, budget, FromRoots(env, budget, st, i))
    ensures st.visited <= FromRoots(env, budget, st, i).visited
    ensures st.truncated ==> FromRoots(env, budget, st, i).truncated
    decreases |env.t.roots| - i
  {
    if i < |env.t.roots| {
      RootStepKeeps(env, budget, st, env.t.roots[i]);
      var (next, stop) := RootStep(env, budget, st, env.t.roots[i]);
      FromRootsKeeps(env, budget, next, i + 1);
    }
  }

  lemma PassOneKeeps(env: Env, budget: int)
    ensures Invariant(env, budget, PassOne(env, budget))
  {
    FromRootsKeeps(env, budget, START, 0);
  }

  // ---------------------------------------------------------------- the second pass

  lemma {:induction false} AppendVisitedKeeps(env: Env, st: State, id: string, edges: seq<Edge>)
    requires EdgesKept(env, st) && id in st.visited
    requires forall e | e in edges :: e in env.edges && Touches(e, id)
    ensures var after := AppendVisitedEdges(st, id, edges);
            && EdgesKept(env, after)
            && (forall e :: e in after.seenEdges <==>
                  e in st.seenEdges || (e in edges && e.source in st.visited && e.target in st.visited))
    decreases |edges|
  {
    AppendKeeps(st, id, edges);
    if edges != [] {
      var e := edges[0];
      assert e in edges;
      var next := if Other(e, id) in st.visited then AppendEdge(st, e) else st;
      if Other(e, id) in st.visited { AppendEdgeKeeps(env, 0, st, e); }
      AppendVisitedKeeps(env, next, id, edges[1..]);
      assert forall x :: x in edges <==> x == e || x in edges[1..];
    }
  }

  /** The states of the second pass, relative to what the first pass retained. */
  ghost predicate SecondInvariant(env: Env, budget: int, passOne: State, st: State, i: nat) {
    && EdgesKept(env, st) && NodesKept(env, budget, st) && DeferredKept(env, passOne)
    && st.deferred == passOne.deferred && i <= |st.deferred|
    && passOne.visited <= st.visited
    && (forall id | id in st.visited ::
          id in passOne.visited || (id in st.deferred[..i] && Attached(env, passOne.visited, id)))
    && (forall id | id in passOne.visited :: !Deferrable(env, id) && AllowedNode(env, id, true))
    && (passOne.truncated ==> st.visited == passOne.visited && st.truncated)
  }

  lemma AdmitKeeps(env: Env, budget: int, passOne: State, st: State, i: nat)
    requires SecondInvariant(env, budget, passOne, st, i) && i < |st.deferred|
    requires |st.retained| < budget && Attached(env, passOne.visited, st.deferred[i])
    ensures SecondInvariant(env, budget, passOne, Admit(env, st, st.deferred[i]), i + 1)
  {
    hide Attached;
    var id := st.deferred[i];
    assert id in passOne.deferred;
    assert id !in st.deferred[..i] && id !in st.visited;
    var next := st.(visited := st.visited + {id}, retained := st.retained + [id]);
    AdmitKeepsDeferred(env, st, id);
    AppendVisitedKeeps(env, next, id, Incident(env.edges, id));
    assert st.deferred[..i + 1] == st.deferred[..i] + [id];
    assert forall x :: x in next.retained <==> x in st.retained || x == id;
  }

  lemma PrefixWithin<T>(s: seq<T>, i: nat, j: nat)
    requires i <= j <= |s|
    ensures forall x | x in s[..i] :: x in s[..j]
  {
    assert s[..i] == s[..j][..i];
  }

  lemma SecondSkips(env: Env, budget: int, passOne: State, st: State, after: State, i: nat, j: nat)
    requires SecondInvariant(env, budget, passOne, st, i) && i <= j <= |st.deferred|
    requires after == st || (after == st.(truncated := true) && |st.retained| >= budget)
    ensures SecondInvariant(env, budget, passOne, after, j)
  {
    PrefixWithin(st.deferred, i, j);
  }

  lemma {:induction false} FromDeferredKeeps(env: Env, budget: int, passOne: State, st: State, i: nat)
    requires SecondInvariant(env, budget, passOne, st, i)
    ensures SecondInvariant(env, budget, passOne,
                            FromDeferred(env, budget, passOne.visited, st, i), |st.deferred|)
    decreases |st.deferred| - i
  {
    hide EdgesKept, NodesKept, DeferredKept;
    if i < |st.deferred| {
      if |st.retained| >= budget {
        SecondSkips(env, budget, passOne, st, st.(truncated := true), i, |st.deferred|);
      } else if !Attached(env, passOne.visited, st.deferred[i]) {
        SecondSkips(env, budget, passOne, st, st, i, i + 1);
        FromDeferredKeeps(env, budget, passOne, st, i + 1);
      } else {
        AdmitKeeps(env, budget, passOne, st, i);
        AdmitKeepsDeferred(env, st, st.deferred[i]);
        FromDeferredKeeps(env, budget, passOne, Admit(env, st, st.deferred[i]), i + 1);
      }
    }
  }

  /** The state a result is assembled from. */
  function Final(env: Env, budget: int): State { PassTwo(env, budget, PassOne(env, budget)) }

  /**
   The final state: distinct known nodes within budget, distinct usable edges between them, every
   node admissible; finished nodes other than the requested root only when attached to open work,
   and only when the first pass dropped nothing for budget.
   */
  lemma FinalWellFormed(env: Env, budget: int)
    ensures var st := Final(env, budget);
            && EdgesKept(env, st) && NodesKept(env, budget, st)
            && (forall id | id in st.retained :: AllowedNode(env, id, true))
            && (forall id | id in st.retained && Deferrable(env, id) ::
                  !PassOne(env, budget).truncated && Attached(env, PassOne(env, budget).visited, id))
  {
    var one := PassOne(env, budget);
    PassOneKeeps(env, budget);
    FromDeferredKeeps(env, budget, one, one, 0);
    var st := Final(env, budget);
    forall id | id in st.retained ensures AllowedNode(env, id, true) {
      if id !in one.visited { assert id in one.deferred; }
    }
  }

  /** `BuildGraph`. */
  function Build(snapshot: Snapshot, t: Traversal, budget: int): GraphResult
    requires EntryPointsSupplied(snapshot, t, budget)
  {
    var env := MakeEnv(snapshot, t);
    FinalWellFormed(env, budget);
    Assemble(snapshot, env, budget, Final(env, budget))
  }
}
