/**
 The bounded issue graph: snapshot, traversal rules, and the traversal itself as a transition system
 over explicit states. `GraphBuilder` runs it in place; `GraphDistance` and `GraphBudget` prove what
 it computes.
 */
module IssueGraph {
  import opened Ordering

  datatype Option<+T> = None | Some(value: T)

  datatype Status = Open | Ready | Blocked | Review | Done | Cancelled

  datatype Node = Node(id: string, status: Status, sequence: int, claimable: bool)

  datatype Edge = Edge(source: string, target: string, kind: string)

  datatype Direction = Outgoing | Incoming | Both

  datatype Snapshot = Snapshot(
    rootID: Option<string>, nodes: seq<Node>, edges: seq<Edge>,
    planningEntryPoints: seq<string>, planningEntryPointCount: Option<nat>)

  /** The node budget `MaxNodes` is kept apart: most results compare runs under different budgets. */
  datatype Traversal = Traversal(
    roots: seq<string>, explicitRoot: string, depth: int, direction: Direction,
    relationTypes: seq<string>, includeHierarchy: bool, includeTerminal: bool, excludeReview: bool,
    preferNonTerminal: bool)

  /** Everything the traversal only reads. */
  datatype Env = Env(nodes: map<string, Node>, edges: seq<Edge>, t: Traversal)

  // ---------------------------------------------------------------- the snapshot as a graph

  predicate IsTerminal(status: Status) { status.Done? || status.Cancelled? }

  /** Later nodes replace earlier ones with the same ID. */
  function NodesByID(nodes: seq<Node>): (m: map<string, Node>)
    ensures forall id | id in m :: m[id].id == id && m[id] in nodes
  {
    if nodes == [] then map[]
    else NodesByID(nodes[..|nodes| - 1])[nodes[|nodes| - 1].id := nodes[|nodes| - 1]]
  }

  predicate AllowedType(t: Traversal, kind: string) {
    kind in t.relationTypes || (t.includeHierarchy && kind == "contains")
  }

  predicate Usable(nodes: map<string, Node>, t: Traversal, e: Edge) {
    AllowedType(t, e.kind) && e.source in nodes && e.target in nodes
  }

  function UsableEdges(edges: seq<Edge>, nodes: map<string, Node>, t: Traversal): (r: seq<Edge>)
    ensures forall e :: e in r <==> e in edges && Usable(nodes, t, e)
  {
    if edges == [] then []
    else
      var init, last := UsableEdges(edges[..|edges| - 1], nodes, t), edges[|edges| - 1];
      assert edges == edges[..|edges| - 1] + [last];
      if Usable(nodes, t, last) then init + [last] else init
  }

  function MakeEnv(snapshot: Snapshot, t: Traversal): Env {
    var nodes := NodesByID(snapshot.nodes);
    Env(nodes, UsableEdges(snapshot.edges, nodes, t), t)
  }

  predicate Touches(e: Edge, id: string) { e.source == id || e.target == id }

  /** `adjacency[id]`: the usable edges at a node, in snapshot order. */
  function Incident(edges: seq<Edge>, id: string): (r: seq<Edge>)
    ensures forall e :: e in r <==> e in edges && Touches(e, id)
  {
    if edges == [] then []
    else
      var init, last := Incident(edges[..|edges| - 1], id), edges[|edges| - 1];
      assert edges == edges[..|edges| - 1] + [last];
      if Touches(last, id) then init + [last] else init
  }

  // ---------------------------------------------------------------- neighbours

  datatype Neighbor = Neighbor(edge: Edge, id: string, sequence: int)

  /** Where an edge leads from a node; the empty string when it is not traversed from there. */
  function Far(e: Edge, current: string, direction: Direction): string {
    if e.kind == "related_to" then
      if e.source == current then e.target else if e.target == current then e.source else ""
    else if direction != Outgoing && e.target == current then e.source
    else if direction != Incoming && e.source == current then e.target
    else ""
  }

  /** `e` is traversed from `u` to `n`: relation direction respected, `related_to` symmetric. */
  ghost predicate Leads(env: Env, e: Edge, u: string, n: string) {
    && e in env.edges && n != "" && n in env.nodes
    && if e.kind == "related_to" then (e.source == u && e.target == n) || (e.target == u && e.source == n)
       else (env.t.direction != Incoming && e.source == u && e.target == n)
            || (env.t.direction != Outgoing && e.target == u && e.source == n)
  }

  function NeighborList(edges: seq<Edge>, current: string, env: Env): seq<Neighbor> {
    if edges == [] then []
    else
      var init, last := NeighborList(edges[..|edges| - 1], current, env), edges[|edges| - 1];
      var far := Far(last, current, env.t.direction);
      if far == "" || far !in env.nodes then init else init + [Neighbor(last, far, env.nodes[far].sequence)]
  }

  function NeighborKey(n: Neighbor): seq<Part> { [Name(n.edge.kind), Count(n.sequence), Name(n.id)] }

  predicate NeighborBefore(a: Neighbor, b: Neighbor) { KeyLess(NeighborKey(a), NeighborKey(b)) }

  /** `graphNeighbors`: in order of edge type, then issue number, then ID. */
  function GraphNeighbors(env: Env, current: string): seq<Neighbor> {
    Sort(NeighborList(Incident(env.edges, current), current, env), NeighborBefore)
  }

  // ---------------------------------------------------------------- selection rules

  predicate Excluded(env: Env, id: string) {
    || id !in env.nodes
    || (!env.t.includeTerminal && IsTerminal(env.nodes[id].status))
    || (env.t.excludeReview && env.nodes[id].status.Review?)
  }

  predicate Terminal(env: Env, id: string) { id in env.nodes && IsTerminal(env.nodes[id].status) }

  /** Finished work that must wait for the second pass. */
  predicate Deferrable(env: Env, id: string) {
    env.t.preferNonTerminal && id != env.t.explicitRoot && Terminal(env, id)
  }

  predicate AllowedNode(env: Env, id: string, root: bool) {
    id in env.nodes && ((root && id == env.t.explicitRoot) || !Excluded(env, id))
  }

  // ---------------------------------------------------------------- states of the first pass

  datatype Queued = Queued(id: string, depth: nat)

  datatype State = State(
    retained: seq<string>,      // result.Nodes, by ID
    visited: set<string>,
    queue: seq<Queued>,
    deferred: seq<string>, deferredSeen: set<string>,
    edges: seq<Edge>, seenEdges: set<Edge>,
    truncated: bool, budgetExhausted: bool)

  const START := State([], {}, [], [], {}, [], {}, false, false)

  /** `addNode`: the new state, and whether the node is retained. */
  function AddNode(env: Env, budget: int, st: State, id: string, depth: nat, root: bool): (State, bool) {
    if id in st.visited then (st, true)
    else if id !in env.nodes then (st, false)
    else if Deferrable(env, id) then
      if id in st.deferredSeen then (st, false)
      else
        (st.(deferredSeen := st.deferredSeen + {id},
             queue := st.queue + [Queued(id, depth)],
             deferred := if AllowedNode(env, id, root) then st.deferred + [id] else st.deferred), false)
    else if !AllowedNode(env, id, root) then (st, false)
    else if |st.retained| >= budget then (st.(truncated := true, budgetExhausted := true), false)
    else
      (st.(visited := st.visited + {id},
           retained := st.retained + [id],
           queue := st.queue + [Queued(id, depth)]), true)
  }

  /** `appendGraphEdge`. */
  function AppendEdge(st: State, e: Edge): State {
    if e in st.seenEdges then st else st.(edges := st.edges + [e], seenEdges := st.seenEdges + {e})
  }

  /** One candidate of an expanded node. */
  function Visit(env: Env, budget: int, st: State, current: Queued, n: Neighbor): State {
    if !AllowedNode(env, n.id, false) && !Deferrable(env, n.id) then st
    else
      var (after, added) := AddNode(env, budget, st, n.id, current.depth + 1, false);
      if added && current.id in after.visited && n.id in after.visited then AppendEdge(after, n.edge) else after
  }

  function VisitAll(env: Env, budget: int, st: State, current: Queued, ns: seq<Neighbor>): State
    decreases |ns|
  {
    if ns == [] then st
    else VisitAll(env, budget, Visit(env, budget, st, current, ns[0]), current, ns[1..])
  }

  /** A queued node is expanded unless it is at the depth limit or opaque. */
  predicate Expands(env: Env, current: Queued) {
    current.depth < env.t.depth && (!Excluded(env, current.id) || Deferrable(env, current.id))
  }

  /** One turn of the queue loop. */
  function Step(env: Env, budget: int, st: State): State
    requires st.queue != []
  {
    var current := st.queue[0];
    var popped := st.(queue := st.queue[1..]);
    if Expands(env, current) then VisitAll(env, budget, popped, current, GraphNeighbors(env, current.id))
    else popped
  }

  /** Nodes that can still be enqueued: none is enqueued twice. */
  function Unseen(env: Env, st: State): set<string> {
    set id | id in env.nodes && id !in (if Deferrable(env, id) then st.deferredSeen else st.visited)
  }

  function Work(env: Env, st: State): nat { 2 * |Unseen(env, st)| + |st.queue| }

  lemma AddNodeWork(env: Env, budget: int, st: State, id: string, depth: nat, root: bool)
    ensures Work(env, AddNode(env, budget, st, id, depth, root).0) <= Work(env, st)
  {
    var after := AddNode(env, budget, st, id, depth, root).0;
    if after.queue != st.queue {
      Shrinks(Unseen(env, st), Unseen(env, after), id);
    }
  }

  /** A subset without one element of the set has fewer elements. */
  lemma Shrinks<T>(a: set<T>, b: set<T>, x: T)
    requires b <= a && x in a && x !in b
    ensures |b| < |a|
  {
    SubsetSize(b, a - {x});
  }

  lemma SubsetSize<T>(b: set<T>, a: set<T>)
    requires b <= a
    ensures |b| <= |a|
  {
    assert a == b + (a - b);
  }

  lemma {:induction false} VisitAllWork(env: Env, budget: int, st: State, current: Queued, ns: seq<Neighbor>)
    ensures Work(env, VisitAll(env, budget, st, current, ns)) <= Work(env, st)
    decreases |ns|
  {
    if ns != [] {
      AddNodeWork(env, budget, st, ns[0].id, current.depth + 1, false);
      VisitAllWork(env, budget, Visit(env, budget, st, current, ns[0]), current, ns[1..]);
    }
  }

  lemma StepWork(env: Env, budget: int, st: State)
    requires st.queue != []
    ensures Work(env, Step(env, budget, st)) < Work(env, st)
  {
    var popped := st.(queue := st.queue[1..]);
    if Expands(env, st.queue[0]) {
      VisitAllWork(env, budget, popped, st.queue[0], GraphNeighbors(env, st.queue[0].id));
    }
  }

  /** The queue loop, to the end. */
  function Drain(env: Env, budget: int, st: State): State
    decreases Work(env, st)
  {
    if st.queue == [] then st
    else
      StepWork(env, budget, st);
      Drain(env, budget, Step(env, budget, st))
  }

  /** One root: the new state, and whether the root loop stops because the budget is exhausted. */
  function RootStep(env: Env, budget: int, st: State, root: string): (State, bool) {
    var explicit := root == env.t.explicitRoot;
    if root in st.visited then (st, false)
    else if !AllowedNode(env, root, explicit) && !Deferrable(env, root) then (st, false)
    else
      var (after, added) := AddNode(env, budget, st, root, 0, explicit);
      if !added && after.budgetExhausted then (after, true) else (Drain(env, budget, after), false)
  }

  /** The loop over the roots from position `i` on. */
  function FromRoots(env: Env, budget: int, st: State, i: nat): State
    decreases |env.t.roots| - i
  {
    if i >= |env.t.roots| then st
    else
      var (next, stop) := RootStep(env, budget, st, env.t.roots[i]);
      if stop then next else FromRoots(env, budget, next, i + 1)
  }

  function PassOne(env: Env, budget: int): State { FromRoots(env, budget, START, 0) }

  // ---------------------------------------------------------------- the second pass

  function Other(e: Edge, id: string): string { if e.source == id then e.target else e.source }

  /** An edge joins `id` to a node the first pass retained. */
  predicate Attached(env: Env, passOne: set<string>, id: string) {
    exists e | e in Incident(env.edges, id) :: Other(e, id) != id && Other(e, id) in passOne
  }

  function AppendVisitedEdges(st: State, id: string, edges: seq<Edge>): State
    decreases |edges|
  {
    if edges == [] then st
    else
      AppendVisitedEdges(
        if Other(edges[0], id) in st.visited then AppendEdge(st, edges[0]) else st, id, edges[1..])
  }

  function Admit(env: Env, st: State, id: string): State {
    var after := st.(visited := st.visited + {id}, retained := st.retained + [id]);
    AppendVisitedEdges(after, id, Incident(env.edges, id))
  }

  /** The loop over the deferred nodes from position `i` on; `passOne` is what the first pass retained. */
  function FromDeferred(env: Env, budget: int, passOne: set<string>, st: State, i: nat): State
    decreases |st.deferred| - i
  {
    if i >= |st.deferred| then st
    else if |st.retained| >= budget then st.(truncated := true)
    else if !Attached(env, passOne, st.deferred[i]) then FromDeferred(env, budget, passOne, st, i + 1)
    else
      AdmitKeepsDeferred(env, st, st.deferred[i]);
      FromDeferred(env, budget, passOne, Admit(env, st, st.deferred[i]), i + 1)
  }

  lemma {:induction false} AppendKeeps(st: State, id: string, edges: seq<Edge>)
    ensures var after := AppendVisitedEdges(st, id, edges);
            after == st.(edges := after.edges, seenEdges := after.seenEdges)
    decreases |edges|
  {
    if edges != [] {
      AppendKeeps(if Other(edges[0], id) in st.visited then AppendEdge(st, edges[0]) else st, id, edges[1..]);
    }
  }

  lemma AdmitKeepsDeferred(env: Env, st: State, id: string)
    ensures var after := Admit(env, st, id);
            after == st.(visited := st.visited + {id}, retained := st.retained + [id],
                         edges := after.edges, seenEdges := after.seenEdges)
  {
    AppendKeeps(st.(visited := st.visited + {id}, retained := st.retained + [id]), id, Incident(env.edges, id));
  }

  function PassTwo(env: Env, budget: int, st: State): State {
    FromDeferred(env, budget, st.visited, st, 0)
  }

  // ---------------------------------------------------------------- the result

  function SequenceOf(nodes: map<string, Node>, id: string): int {
    if id in nodes then nodes[id].sequence else 0
  }

  function EdgeKey(nodes: map<string, Node>, e: Edge): seq<Part> {
    [Name(e.kind), Count(SequenceOf(nodes, e.source)), Name(e.source),
     Count(SequenceOf(nodes, e.target)), Name(e.target)]
  }

  function EdgeOrder(nodes: map<string, Node>): (Edge, Edge) -> bool {
    (a, b) => KeyLess(EdgeKey(nodes, a), EdgeKey(nodes, b))
  }

  datatype Reason = NodeLimit | EntryPointLimit

  datatype GraphResult = GraphResult(
    rootID: Option<string>, nodes: seq<Node>, edges: seq<Edge>, entryPoints: seq<string>,
    blockingNodes: seq<string>, entryPointCount: nat, reason: Option<Reason>)
  {
    predicate Truncated() { reason.Some? }
  }

  function NodesOf(env: Env, ids: seq<string>): seq<Node>
    requires forall id | id in ids :: id in env.nodes
  {
    seq(|ids|, i requires 0 <= i < |ids| => env.nodes[ids[i]])
  }

  predicate EntryPoint(n: Node) { n.claimable && !IsTerminal(n.status) }

  function ClaimableIDs(nodes: seq<Node>): seq<string> {
    if nodes == [] then []
    else
      var init, last := ClaimableIDs(nodes[..|nodes| - 1]), nodes[|nodes| - 1];
      if EntryPoint(last) then init + [last.id] else init
  }

  function UnfilteredIDs(env: Env, nodes: seq<Node>): seq<string> {
    if nodes == [] then []
    else
      var init, last := UnfilteredIDs(env, nodes[..|nodes| - 1]), nodes[|nodes| - 1];
      if EntryPoint(last) && !Excluded(env, last.id) then init + [last.id] else init
  }

  /** Entry points before the cap: stored ones, the whole snapshot's, or those of the retained nodes. */
  function EntryPointsOf(snapshot: Snapshot, env: Env, nodes: seq<Node>): seq<string> {
    if env.t.preferNonTerminal && snapshot.planningEntryPointCount.Some? then snapshot.planningEntryPoints
    else if env.t.preferNonTerminal then UnfilteredIDs(env, snapshot.nodes)
    else ClaimableIDs(nodes)
  }

  function EntryPointCount(snapshot: Snapshot, env: Env, nodes: seq<Node>): nat {
    if env.t.preferNonTerminal && snapshot.planningEntryPointCount.Some? then
      snapshot.planningEntryPointCount.value
    else |EntryPointsOf(snapshot, env, nodes)|
  }

  predicate Blocks(env: Env, edges: seq<Edge>, id: string) {
    exists e | e in edges :: e.kind == "blocks" && e.source == id && id in env.nodes && !Terminal(env, id)
  }

  function BlockingIDs(env: Env, edges: seq<Edge>, ids: seq<string>): seq<string> {
    if ids == [] then []
    else
      var init, last := BlockingIDs(env, edges, ids[..|ids| - 1]), ids[|ids| - 1];
      if Blocks(env, edges, last) then init + [last] else init
  }

  /**
   What storage owes the traversal: when it counts more entry points than the budget, it lists at
   least as many as the budget keeps (slicing a shorter list would fail).
   */
  predicate EntryPointsSupplied(snapshot: Snapshot, t: Traversal, budget: int) {
    (t.preferNonTerminal && snapshot.planningEntryPointCount.Some?
     && 0 < budget < snapshot.planningEntryPointCount.value)
    ==> budget <= |snapshot.planningEntryPoints|
  }

  predicate Capped(count: nat, budget: int) { budget > 0 && count > budget }

  function Assemble(snapshot: Snapshot, env: Env, budget: int, st: State): GraphResult
    requires forall id | id in st.retained :: id in env.nodes
    requires EntryPointsSupplied(snapshot, env.t, budget)
  {
    var nodes := NodesOf(env, st.retained);
    var edges := Sort(st.edges, EdgeOrder(env.nodes));
    var entries := EntryPointsOf(snapshot, env, nodes);
    var count := EntryPointCount(snapshot, env, nodes);
    GraphResult(
      snapshot.rootID, nodes, edges,
      if Capped(count, budget) then entries[..budget] else entries,
      BlockingIDs(env, edges, st.retained), count,
      if st.truncated then Some(NodeLimit) else if Capped(count, budget) then Some(EntryPointLimit) else None)
  }
}
