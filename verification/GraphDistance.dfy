/**
 The first pass is breadth-first search from each root in turn, through open work and through finished
 work that must wait. One root's search retains the open nodes nearest to the root, and reaches
 everything within the depth limit when nothing is truncated. `GraphReach` puts the roots together.
 */
module GraphDistance {
  import opened IssueGraph
  import opened GraphWellFormed

  // ---------------------------------------------------------------- distance

  /** A node the search may enter and pass through: open work, or finished work waiting for the second pass. */
  predicate Passable(env: Env, id: string) { Shown(env, id) || Waits(env, id) }

  /** One traversal step along an allowed edge. */
  ghost predicate Hop(env: Env, u: string, n: string) {
    Passable(env, u) && Passable(env, n) && exists e :: Leads(env, e, u, n)
  }

  /** The nodes at most `k` hops from the root, by paths that avoid a set of nodes. */
  ghost function Ball(env: Env, avoid: set<string>, root: string, k: nat): set<string> {
    if k == 0 then {root}
    else
      var inner := Ball(env, avoid, root, k - 1);
      inner + (set n | n in env.nodes && n !in avoid && exists u :: u in inner && Hop(env, u, n))
  }

  ghost predicate Link(env: Env, avoid: set<string>, u: string, n: string) { Hop(env, u, n) && n !in avoid }

  ghost predicate IsPath(env: Env, avoid: set<string>, p: seq<string>) {
    forall i | 0 <= i < |p| - 1 :: Link(env, avoid, p[i], p[i + 1])
  }

  ghost predicate PathTo(env: Env, avoid: set<string>, root: string, n: string, p: seq<string>) {
    p != [] && p[0] == root && p[|p| - 1] == n && IsPath(env, avoid, p)
  }

  lemma {:induction false} BallHasPath(env: Env, avoid: set<string>, root: string, k: nat, n: string)
    returns (p: seq<string>)
    requires n in Ball(env, avoid, root, k)
    ensures PathTo(env, avoid, root, n, p) && |p| <= k + 1
  {
    if k == 0 {
      p := [root];
    } else if n in Ball(env, avoid, root, k - 1) {
      p := BallHasPath(env, avoid, root, k - 1, n);
    } else {
      var u :| u in Ball(env, avoid, root, k - 1) && Hop(env, u, n);
      var q := BallHasPath(env, avoid, root, k - 1, u);
      p := q + [n];
    }
  }

  lemma {:induction false} PathStaysInBall(env: Env, avoid: set<string>, root: string, n: string, p: seq<string>)
    requires PathTo(env, avoid, root, n, p)
    ensures n in Ball(env, avoid, root, |p| - 1)
    decreases |p|
  {
    if |p| > 1 {
      var u := p[|p| - 2];
      assert p[..|p| - 1][|p| - 2] == u;
      PathStaysInBall(env, avoid, root, u, p[..|p| - 1]);
      assert Link(env, avoid, p[|p| - 2], p[|p| - 1]);
    }
  }

  lemma {:induction false} BallGrows(env: Env, avoid: set<string>, root: string, j: nat, k: nat)
    requires j <= k
    ensures Ball(env, avoid, root, j) <= Ball(env, avoid, root, k)
    decreases k
  {
    if j < k { BallGrows(env, avoid, root, j, k - 1); }
  }

  /** The ball of radius `k` is exactly what paths of at most `k` hops reach. */
  lemma BallIsPaths(env: Env, avoid: set<string>, root: string, k: nat, n: string)
    ensures n in Ball(env, avoid, root, k) <==> exists p :: PathTo(env, avoid, root, n, p) && |p| <= k + 1
  {
    if n in Ball(env, avoid, root, k) {
      var p := BallHasPath(env, avoid, root, k, n);
    }
    if p :| PathTo(env, avoid, root, n, p) && |p| <= k + 1 {
      PathStaysInBall(env, avoid, root, n, p);
      BallGrows(env, avoid, root, |p| - 1, k);
    }
  }

  /** Balls as an abstract sequence of sets: all the search needs to know about distance. */
  type Balls = nat -> set<string>

  ghost predicate IsBalls(env: Env, avoid: set<string>, ball: Balls) {
    && (forall j: nat, k: nat | j <= k :: ball(j) <= ball(k))
    && (forall k: nat :: ball(k) !! avoid)
    && (forall k: nat, u, n | u in ball(k) && Hop(env, u, n) && n !in avoid :: n in ball(k + 1))
    && (forall k: nat :: Grows(env, ball, k))
  }

  /** What is new in a ball is one hop from the ball before. */
  ghost predicate Grows(env: Env, ball: Balls, k: nat) {
    forall n | n in ball(k + 1) && n !in ball(k) :: exists u :: u in ball(k) && Hop(env, u, n)
  }

  ghost function BallsAround(env: Env, avoid: set<string>, root: string): Balls {
    (k: nat) => Ball(env, avoid, root, k)
  }

  lemma {:induction false} BallAvoids(env: Env, avoid: set<string>, root: string, k: nat)
    requires root !in avoid
    ensures Ball(env, avoid, root, k) !! avoid
  {
    if k > 0 { BallAvoids(env, avoid, root, k - 1); }
  }

  lemma BallsAroundRoot(env: Env, avoid: set<string>, root: string)
    requires root !in avoid
    ensures IsBalls(env, avoid, BallsAround(env, avoid, root))
  {
    var ball := BallsAround(env, avoid, root);
    forall j: nat, k: nat | j <= k ensures ball(j) <= ball(k) { BallGrows(env, avoid, root, j, k); }
    forall k: nat ensures ball(k) !! avoid { BallAvoids(env, avoid, root, k); }
    forall k: nat, u, n | u in ball(k) && Hop(env, u, n) && n !in avoid ensures n in ball(k + 1) {
      assert n in env.nodes;
    }
  }

  /** At distance exactly `k`. */
  ghost predicate Level(ball: Balls, n: string, k: nat) {
    n in ball(k) && (k > 0 ==> n !in ball(k - 1))
  }

  // ---------------------------------------------------------------- the invariant of one root's search

  /** The depth limit; a negative one expands nothing, like zero. */
  function Radius(env: Env): nat { if env.t.depth < 0 then 0 else env.t.depth }

  /** Every node the search has met: retained, or waiting for the second pass. */
  function Known(st: State): set<string> { st.visited + st.deferredSeen }

  /** What the search from one root has met, beyond what was known in `from`, the state it started in. */
  function Found(from: State, st: State): set<string> { Known(st) - Known(from) }

  /** An edge the search follows: from a node it expands. */
  ghost predicate Followed(env: Env, ball: Balls, e: Edge, u: string, n: string) {
    Radius(env) > 0 && u in ball(Radius(env) - 1) && Hop(env, u, n) && Leads(env, e, u, n)
  }

  ghost predicate OrderedByDistance(ball: Balls, retained: seq<string>) {
    forall i, j, k: nat | 0 <= i < j < |retained| && retained[j] in ball(k) :: retained[i] in ball(k)
  }

  /** The open nodes of a ball have all been retained. */
  ghost predicate OpenWithin(env: Env, nodes: set<string>, visited: set<string>) {
    forall n | n in nodes && !Deferrable(env, n) :: n in visited
  }

  /** Either nothing added is outside the ball of radius `k`, or no open node inside it is missing. */
  ghost predicate NearestAt(env: Env, ball: Balls, added: set<string>, k: nat) {
    added <= ball(k) || OpenWithin(env, ball(k), added)
  }

  ghost predicate Nearest(env: Env, ball: Balls, added: set<string>) {
    forall k: nat :: NearestAt(env, ball, added, k)
  }

  ghost predicate EdgesFollowed(env: Env, ball: Balls, from: State, st: State) {
    forall e | e in st.seenEdges :: e in from.seenEdges
      || exists u, n :: Followed(env, ball, e, u, n) && u in st.visited && n in st.visited
  }

  ghost predicate Extends(from: State, st: State) {
    && from.visited <= st.visited && from.deferredSeen <= st.deferredSeen && from.seenEdges <= st.seenEdges
    && from.retained <= st.retained
  }

  /** The nodes retained by this root's search, in order. */
  function Fresh(from: State, st: State): seq<string>
    requires from.retained <= st.retained
  {
    st.retained[|from.retained|..]
  }

  ghost predicate QueueFound(env: Env, ball: Balls, from: State, st: State) {
    forall q | q in st.queue :: q.depth <= Radius(env) && q.id in Found(from, st) && q.id in ball(q.depth)
  }

  /** What holds even after the budget has run out. */
  ghost predicate Sound(env: Env, ball: Balls, from: State, st: State) {
    && Extends(from, st)
    && Found(from, st) <= ball(Radius(env))
    && QueueFound(env, ball, from, st)
    && EdgesFollowed(env, ball, from, st)
    && OrderedByDistance(ball, Fresh(from, st))
    && Nearest(env, ball, st.visited - from.visited)
  }

  ghost predicate IsQueued(st: State, id: string) { exists q | q in st.queue :: q.id == id }

  /** Every neighbour of `v` the search may enter has been met; between open nodes the edge has been kept. */
  ghost predicate Closed(env: Env, st: State, v: string, ns: seq<Neighbor>) {
    forall n | n in ns && Passable(env, n.id) ::
      n.id in Known(st) && (!Deferrable(env, v) && !Deferrable(env, n.id) ==> n.edge in st.seenEdges)
  }

  ghost predicate QueueLevels(ball: Balls, queue: seq<Queued>, d: nat) {
    && (forall q | q in queue :: (q.depth == d || q.depth == d + 1) && Level(ball, q.id, q.depth))
    && (forall i, j | 0 <= i < j < |queue| :: queue[i].depth <= queue[j].depth)
  }

  /** A node nearer than the depth limit that is neither waiting nor being expanded. */
  ghost predicate Settled(env: Env, ball: Balls, from: State, st: State, busy: set<string>, v: string) {
    && v in Found(from, st) && v !in busy && !IsQueued(st, v) && Passable(env, v)
    && Radius(env) > 0 && v in ball(Radius(env) - 1)
  }

  ghost predicate ExpandedClosed(env: Env, ball: Balls, from: State, st: State, busy: set<string>) {
    forall v | Settled(env, ball, from, st, busy, v) :: Closed(env, st, v, GraphNeighbors(env, v))
  }

  /** While nothing is truncated: the search has reached all of ball `d` and part of ball `d + 1`. */
  ghost predicate Complete(env: Env, ball: Balls, from: State, st: State, d: nat, busy: set<string>) {
    && d <= Radius(env) && ball(d) <= Found(from, st) <= ball(d + 1)
    && QueueLevels(ball, st.queue, d)
    && (forall v | v in Found(from, st) && v !in ball(d) :: IsQueued(st, v))
    && ExpandedClosed(env, ball, from, st, busy)
  }

  ghost predicate Progress(env: Env, ball: Balls, from: State, st: State, d: nat, busy: set<string>) {
    Sound(env, ball, from, st) && (!st.truncated ==> Complete(env, ball, from, st, d, busy))
  }

  ghost predicate Searching(
    env: Env, ball: Balls, budget: int, from: State, st: State, d: nat, busy: set<string>)
  {
    Invariant(env, budget, st) && Progress(env, ball, from, st, d, busy)
  }

  // ---------------------------------------------------------------- meeting a new node

  lemma FoundLevel(env: Env, avoid: set<string>, ball: Balls, d: nat, u: string, n: string)
    requires IsBalls(env, avoid, ball) && n !in avoid
    requires u in ball(d) && d < Radius(env) && Hop(env, u, n) && n !in ball(d)
    ensures Level(ball, n, d + 1) && n in ball(Radius(env))
  {
    assert ball(d + 1) <= ball(Radius(env));
  }

  lemma FoundNearest(env: Env, avoid: set<string>, ball: Balls, added: set<string>, d: nat, n: string)
    requires IsBalls(env, avoid, ball) && OpenWithin(env, ball(d), added) && added <= ball(d + 1) && n in ball(d + 1)
    ensures Nearest(env, ball, added + {n})
  {
    forall k: nat ensures NearestAt(env, ball, added + {n}, k) {
      assert k <= d ==> ball(k) <= ball(d);
      assert k > d ==> ball(d + 1) <= ball(k);
    }
  }

  /** A newly found node is no nearer than any node found before it. */
  lemma FoundOrdered(env: Env, avoid: set<string>, ball: Balls, retained: seq<string>, d: nat, n: string)
    requires IsBalls(env, avoid, ball) && OrderedByDistance(ball, retained)
    requires (forall id | id in retained :: id in ball(d + 1)) && n !in ball(d)
    ensures OrderedByDistance(ball, retained + [n])
  {
    var all := retained + [n];
    forall i, j, k: nat | 0 <= i < j < |all| && all[j] in ball(k) ensures all[i] in ball(k) {
      if j == |retained| {
        assert k <= d ==> ball(k) <= ball(d);
        assert ball(d + 1) <= ball(k) && retained[i] in retained;
      }
    }
  }

  /** The state after retaining a new node. */
  function Retain(st: State, n: string, depth: nat): State {
    st.(visited := st.visited + {n}, retained := st.retained + [n], queue := st.queue + [Queued(n, depth)])
  }

  /** The state after leaving a new node to the second pass. */
  function Defer(env: Env, st: State, n: string, depth: nat): State {
    st.(deferredSeen := st.deferredSeen + {n}, queue := st.queue + [Queued(n, depth)],
        deferred := if AllowedNode(env, n, false) then st.deferred + [n] else st.deferred)
  }

  /** Either way the node becomes known and joins the queue, and no edge is added. */
  ghost predicate Meets(st: State, after: State, n: string, depth: nat) {
    && Known(after) == Known(st) + {n} && after.queue == st.queue + [Queued(n, depth)]
    && after.seenEdges == st.seenEdges && st.visited <= after.visited
  }

  lemma FollowedGrows(env: Env, ball: Balls, from: State, st: State, after: State)
    requires EdgesFollowed(env, ball, from, st) && st.visited <= after.visited && after.seenEdges == st.seenEdges
    ensures EdgesFollowed(env, ball, from, after)
  {
    forall e | e in after.seenEdges && e !in from.seenEdges
      ensures exists u, v :: Followed(env, ball, e, u, v) && u in after.visited && v in after.visited
    {
      var u, v :| Followed(env, ball, e, u, v) && u in st.visited && v in st.visited;
      assert u in after.visited && v in after.visited;
    }
  }

  lemma QueueFoundGrows(env: Env, ball: Balls, from: State, st: State, after: State, n: string, depth: nat)
    requires QueueFound(env, ball, from, st) && Meets(st, after, n, depth)
    requires n !in Known(from) && depth <= Radius(env) && n in ball(depth)
    ensures QueueFound(env, ball, from, after)
  {
    forall q | q in after.queue
      ensures q.depth <= Radius(env) && q.id in Found(from, after) && q.id in ball(q.depth)
    {
      assert q in st.queue || q == Queued(n, depth);
    }
  }

  /** In the first pass open work is retained and finished work only noted. */
  ghost predicate Apart(env: Env, st: State) {
    && (forall id | id in st.visited :: !Deferrable(env, id))
    && (forall id | id in st.deferredSeen :: Deferrable(env, id))
  }

  lemma FreshFound(env: Env, budget: int, from: State, st: State)
    requires Apart(env, from) && Apart(env, st) && Extends(from, st)
    requires NodesKept(env, budget, from) && NodesKept(env, budget, st)
    ensures forall id :: id in Fresh(from, st) <==> id in st.visited - from.visited
    ensures st.visited - from.visited <= Found(from, st)
  {
    var m := |from.retained|;
    assert st.retained == from.retained + Fresh(from, st);
    forall id | id in Fresh(from, st) ensures id !in from.retained {
      var i :| 0 <= i < |Fresh(from, st)| && Fresh(from, st)[i] == id;
      assert st.retained[m + i] == id;
      assert forall j | 0 <= j < m :: from.retained[j] == st.retained[j] && st.retained[j] != st.retained[m + i];
    }
  }

  /** The open nodes of what has been found have been retained. */
  lemma OpenFound(env: Env, from: State, st: State, nodes: set<string>)
    requires Apart(env, from) && Apart(env, st) && nodes <= Found(from, st)
    ensures OpenWithin(env, nodes, st.visited - from.visited)
  {
  }

  /** The search is in the middle of ball `d + 1`. */
  ghost predicate Between(ball: Balls, from: State, st: State, d: nat) {
    ball(d) <= Found(from, st) <= ball(d + 1)
  }

  lemma RetainNearest(env: Env, ball: Balls, budget: int, from: State, st: State, d: nat, n: string)
    requires IsBalls(env, Known(from), ball) && Between(ball, from, st, d) && Extends(from, st)
    requires n in ball(d + 1) && n !in ball(d) && n !in Known(st)
    requires OrderedByDistance(ball, Fresh(from, st))
    requires Apart(env, from) && Apart(env, st) && NodesKept(env, budget, from) && NodesKept(env, budget, st)
    ensures var after := Retain(st, n, d + 1);
            && Extends(from, after)
            && OrderedByDistance(ball, Fresh(from, after)) && Nearest(env, ball, after.visited - from.visited)
  {
    var after := Retain(st, n, d + 1);
    FreshFound(env, budget, from, st);
    OpenFound(env, from, st, ball(d));
    FoundNearest(env, Known(from), ball, st.visited - from.visited, d, n);
    assert after.visited - from.visited == (st.visited - from.visited) + {n};
    FoundOrdered(env, Known(from), ball, Fresh(from, st), d, n);
    assert Fresh(from, after) == Fresh(from, st) + [n];
  }

  lemma RetainSound(env: Env, ball: Balls, budget: int, from: State, st: State, d: nat, n: string)
    requires IsBalls(env, Known(from), ball) && Between(ball, from, st, d) && Sound(env, ball, from, st)
    requires Level(ball, n, d + 1) && d < Radius(env) && n in ball(Radius(env)) && n !in Known(st)
    requires Apart(env, from) && Apart(env, st) && NodesKept(env, budget, from) && NodesKept(env, budget, st)
    ensures Sound(env, ball, from, Retain(st, n, d + 1))
  {
    var after := Retain(st, n, d + 1);
    RetainNearest(env, ball, budget, from, st, d, n);
    FollowedGrows(env, ball, from, st, after);
    QueueFoundGrows(env, ball, from, st, after, n, d + 1);
  }

  lemma DeferSound(env: Env, ball: Balls, from: State, st: State, d: nat, n: string)
    requires Sound(env, ball, from, st) && d < Radius(env) && n !in Known(st)
    requires n in ball(d + 1) && n in ball(Radius(env)) && from.deferredSeen <= st.deferredSeen
    ensures Sound(env, ball, from, Defer(env, st, n, d + 1))
  {
    var after := Defer(env, st, n, d + 1);
    FollowedGrows(env, ball, from, st, after);
    QueueFoundGrows(env, ball, from, st, after, n, d + 1);
  }

  /** More nodes, edges and queue entries keep expanded nodes closed. */
  lemma ClosedGrows(env: Env, ball: Balls, from: State, st: State, after: State, busy: set<string>)
    requires ExpandedClosed(env, ball, from, st, busy)
    requires Known(st) <= Known(after) && st.seenEdges <= after.seenEdges
    requires forall v | v in Found(from, after) :: IsQueued(after, v) || (v in Found(from, st) && !IsQueued(st, v))
    ensures ExpandedClosed(env, ball, from, after, busy)
  {
    forall v | Settled(env, ball, from, after, busy, v) ensures Closed(env, after, v, GraphNeighbors(env, v)) {
      assert Settled(env, ball, from, st, busy, v);
    }
  }

  lemma QueuedGrows(st: State, after: State, last: Queued)
    requires after.queue == st.queue + [last]
    ensures forall v :: IsQueued(after, v) <==> IsQueued(st, v) || v == last.id
  {
    assert last in after.queue;
    assert forall q :: q in after.queue <==> q in st.queue || q == last;
  }

  lemma LevelsGrow(ball: Balls, queue: seq<Queued>, d: nat, n: string)
    requires QueueLevels(ball, queue, d) && Level(ball, n, d + 1)
    ensures QueueLevels(ball, queue + [Queued(n, d + 1)], d)
  {
    assert forall i | 0 <= i < |queue| :: queue[i] in queue;
  }

  lemma MeetComplete(
    env: Env, ball: Balls, from: State, st: State, after: State, d: nat, busy: set<string>, n: string)
    requires Complete(env, ball, from, st, d, busy) && Level(ball, n, d + 1) && Meets(st, after, n, d + 1)
    requires n !in Known(from)
    ensures Complete(env, ball, from, after, d, busy)
  {
    QueuedGrows(st, after, Queued(n, d + 1));
    assert Found(from, after) == Found(from, st) + {n};
    ClosedGrows(env, ball, from, st, after, busy);
    LevelsGrow(ball, st.queue, d, n);
  }

  // ---------------------------------------------------------------- one candidate

  /** The node being expanded. */
  ghost predicate Expanding(env: Env, ball: Balls, from: State, st: State, current: Queued) {
    && current.depth < Radius(env) && current.id in ball(current.depth)
    && current.id in Found(from, st) && Passable(env, current.id)
  }

  function Admitted(env: Env, budget: int, st: State, n: string, depth: nat): State {
    if n in Known(st) then st
    else if Deferrable(env, n) then Defer(env, st, n, depth)
    else if |st.retained| >= budget then st.(truncated := true, budgetExhausted := true)
    else Retain(st, n, depth)
  }

  /** Adding a node the search may enter. */
  lemma AddCases(env: Env, budget: int, st: State, n: string, depth: nat)
    requires Passable(env, n) && Apart(env, st)
    ensures AddNode(env, budget, st, n, depth, false)
            == (Admitted(env, budget, st, n, depth),
                !Deferrable(env, n) && (n in st.visited || |st.retained| < budget))
  {
  }

  /** A refused open node sets the flag; anything else becomes known. */
  lemma AddEffect(env: Env, budget: int, st: State, n: string, depth: nat)
    requires Passable(env, n) && Apart(env, st)
    ensures var after := Admitted(env, budget, st, n, depth);
            && (n in Known(after) || after.truncated)
            && (!Deferrable(env, n) && (n in st.visited || |st.retained| < budget) ==> n in after.visited)
            && Known(st) <= Known(after) && st.visited <= after.visited && st.seenEdges == after.seenEdges
            && (st.truncated ==> after.truncated) && Apart(env, after)
  {
  }

  lemma FlagProgress(env: Env, ball: Balls, from: State, st: State, after: State, d: nat, busy: set<string>)
    requires Progress(env, ball, from, st, d, busy) && after == st.(truncated := true, budgetExhausted := true)
    ensures Progress(env, ball, from, after, d, busy)
  {
    FollowedGrows(env, ball, from, st, after);
  }

  lemma RetainProgress(
    env: Env, ball: Balls, budget: int, from: State, st: State, after: State, d: nat, u: string, n: string)
    requires IsBalls(env, Known(from), ball) && u in ball(d) && d < Radius(env) && Hop(env, u, n) && n !in Known(st)
    requires Apart(env, from) && Apart(env, st) && NodesKept(env, budget, from) && NodesKept(env, budget, st)
    requires Progress(env, ball, from, st, d, {u}) && !st.truncated && after == Retain(st, n, d + 1)
    ensures Progress(env, ball, from, after, d, {u})
  {
    assert Complete(env, ball, from, st, d, {u}) && Extends(from, st);
    assert Level(ball, n, d + 1) && n in ball(Radius(env)) by { FoundLevel(env, Known(from), ball, d, u, n); }
    assert Sound(env, ball, from, after) by { RetainSound(env, ball, budget, from, st, d, n); }
    assert Complete(env, ball, from, after, d, {u}) by { MeetComplete(env, ball, from, st, after, d, {u}, n); }
  }

  lemma DeferProgress(env: Env, ball: Balls, from: State, st: State, after: State, d: nat, u: string, n: string)
    requires IsBalls(env, Known(from), ball) && u in ball(d) && d < Radius(env) && Hop(env, u, n) && n !in Known(st)
    requires Progress(env, ball, from, st, d, {u}) && after == Defer(env, st, n, d + 1)
    ensures Progress(env, ball, from, after, d, {u})
  {
    assert Extends(from, st) && ball(d + 1) <= ball(Radius(env)) && n in ball(d + 1);
    assert Sound(env, ball, from, after) by { DeferSound(env, ball, from, st, d, n); }
    if !st.truncated {
      assert Level(ball, n, d + 1) by { FoundLevel(env, Known(from), ball, d, u, n); }
      MeetComplete(env, ball, from, st, after, d, {u}, n);
    }
  }

  lemma AddProgress(env: Env, ball: Balls, budget: int, from: State, st: State, current: Queued, n: string)
    requires IsBalls(env, Known(from), ball)
    requires Expanding(env, ball, from, st, current) && Hop(env, current.id, n)
    requires Apart(env, from) && Apart(env, st) && NodesKept(env, budget, from) && NodesKept(env, budget, st)
    requires Progress(env, ball, from, st, current.depth, {current.id})
    ensures Progress(env, ball, from, Admitted(env, budget, st, n, current.depth + 1), current.depth, {current.id})
  {
    hide Progress, Apart, IsBalls;
    var after := Admitted(env, budget, st, n, current.depth + 1);
    if n in Known(st) {
      assert after == st;
    } else if Deferrable(env, n) {
      DeferProgress(env, ball, from, st, after, current.depth, current.id, n);
    } else if |st.retained| < budget {
      RetainProgress(env, ball, budget, from, st, after, current.depth, current.id, n);
    } else {
      FlagProgress(env, ball, from, st, after, current.depth, {current.id});
    }
  }

  lemma EdgeSound(env: Env, ball: Balls, from: State, st: State, e: Edge, u: string, n: string)
    requires Sound(env, ball, from, st) && Followed(env, ball, e, u, n) && u in st.visited && n in st.visited
    ensures Sound(env, ball, from, AppendEdge(st, e))
  {
  }

  lemma EdgeComplete(env: Env, ball: Balls, from: State, st: State, d: nat, busy: set<string>, e: Edge)
    requires Complete(env, ball, from, st, d, busy)
    ensures Complete(env, ball, from, AppendEdge(st, e), d, busy)
  {
    var after := AppendEdge(st, e);
    assert forall v :: IsQueued(after, v) <==> IsQueued(st, v);
    ClosedGrows(env, ball, from, st, after, busy);
  }

  lemma EdgeProgress(env: Env, ball: Balls, from: State, st: State, current: Queued, n: Neighbor)
    requires IsBalls(env, Known(from), ball) && Expanding(env, ball, from, st, current)
    requires Progress(env, ball, from, st, current.depth, {current.id})
    requires Hop(env, current.id, n.id) && Leads(env, n.edge, current.id, n.id)
    requires current.id in st.visited && n.id in st.visited
    ensures Progress(env, ball, from, AppendEdge(st, n.edge), current.depth, {current.id})
    ensures Closed(env, AppendEdge(st, n.edge), current.id, [n])
  {
    assert ball(current.depth) <= ball(Radius(env) - 1);
    EdgeSound(env, ball, from, st, n.edge, current.id, n.id);
    if !st.truncated { EdgeComplete(env, ball, from, st, current.depth, {current.id}, n.edge); }
  }

  lemma VisitCases(env: Env, budget: int, st: State, current: Queued, n: Neighbor)
    requires Passable(env, n.id) && n.id in env.nodes && Apart(env, st)
    ensures var (after, added) := AddNode(env, budget, st, n.id, current.depth + 1, false);
            Visit(env, budget, st, current, n)
            == if added && current.id in after.visited && n.id in after.visited then AppendEdge(after, n.edge)
               else after
  {
  }

  /** The candidate has been dealt with; the edge is kept if both ends are retained. */
  lemma VisitEdge(
    env: Env, ball: Balls, budget: int, from: State, st: State, next: State, current: Queued, n: Neighbor)
    requires IsBalls(env, Known(from), ball) && Expanding(env, ball, from, next, current)
    requires Hop(env, current.id, n.id) && Leads(env, n.edge, current.id, n.id) && Apart(env, st)
    requires Apart(env, next)
    requires next == Admitted(env, budget, st, n.id, current.depth + 1)
    requires Progress(env, ball, from, next, current.depth, {current.id}) && (n.id in Known(next) || next.truncated)
    ensures var after := Visit(env, budget, st, current, n);
            && Progress(env, ball, from, after, current.depth, {current.id})
            && (after.truncated || Closed(env, after, current.id, [n]))
            && Known(next) <= Known(after) && next.seenEdges <= after.seenEdges
  {
    VisitCases(env, budget, st, current, n);
    AddCases(env, budget, st, n.id, current.depth + 1);
    if !Deferrable(env, n.id) && n.id in next.visited && current.id in next.visited {
      EdgeProgress(env, ball, from, next, current, n);
    }
  }

  lemma VisitProgress(env: Env, ball: Balls, budget: int, from: State, st: State, current: Queued, n: Neighbor)
    requires IsBalls(env, Known(from), ball)
    requires Expanding(env, ball, from, st, current) && Leads(env, n.edge, current.id, n.id)
    requires Apart(env, from) && Apart(env, st) && NodesKept(env, budget, from) && NodesKept(env, budget, st)
    requires Progress(env, ball, from, st, current.depth, {current.id})
    ensures var after := Visit(env, budget, st, current, n);
            && Progress(env, ball, from, after, current.depth, {current.id})
            && (after.truncated || Closed(env, after, current.id, [n]))
            && Known(st) <= Known(after) && st.seenEdges <= after.seenEdges
  {
    hide Progress, Apart, NodesKept, IsBalls;
    if Passable(env, n.id) {
      assert Hop(env, current.id, n.id);
      AddProgress(env, ball, budget, from, st, current, n.id);
      AddEffect(env, budget, st, n.id, current.depth + 1);
      VisitEdge(env, ball, budget, from, st, Admitted(env, budget, st, n.id, current.depth + 1), current, n);
    } else {
      assert Visit(env, budget, st, current, n) == st;
    }
  }

  lemma InvariantApart(env: Env, budget: int, st: State)
    requires Invariant(env, budget, st)
    ensures Apart(env, st) && NodesKept(env, budget, st)
  {
  }

  lemma {:induction false} VisitAllSearching(
    env: Env, ball: Balls, budget: int, from: State, st: State, current: Queued, ns: seq<Neighbor>)
    requires IsBalls(env, Known(from), ball) && Invariant(env, budget, from)
    requires Expanding(env, ball, from, st, current) && NeighborsOf(env, current.id, ns)
    requires Searching(env, ball, budget, from, st, current.depth, {current.id})
    ensures var after := VisitAll(env, budget, st, current, ns);
            && Searching(env, ball, budget, from, after, current.depth, {current.id})
            && (after.truncated || Closed(env, after, current.id, ns))
            && Known(st) <= Known(after) && st.seenEdges <= after.seenEdges
    decreases |ns|
  {
    if ns != [] {
      var next := Visit(env, budget, st, current, ns[0]);
      InvariantApart(env, budget, from);
      InvariantApart(env, budget, st);
      VisitProgress(env, ball, budget, from, st, current, ns[0]);
      VisitKeeps(env, budget, st, current, ns[0]);
      VisitAllSearching(env, ball, budget, from, next, current, ns[1..]);
      VisitAllKeeps(env, budget, next, current, ns[1..]);
      var after := VisitAll(env, budget, st, current, ns);
      if !after.truncated { ClosedBoth(env, next, after, current.id, ns); }
    }
  }

  lemma ClosedBoth(env: Env, next: State, after: State, v: string, ns: seq<Neighbor>)
    requires ns != [] && Closed(env, next, v, [ns[0]]) && Closed(env, after, v, ns[1..])
    requires Known(next) <= Known(after) && next.seenEdges <= after.seenEdges
    ensures Closed(env, after, v, ns)
  {
    assert ns == [ns[0]] + ns[1..];
    assert ns[0] in [ns[0]];
  }

  // ---------------------------------------------------------------- one turn of the queue

  lemma NeighborListed(env: Env, e: Edge, u: string, n: string)
    requires Leads(env, e, u, n)
    ensures Neighbor(e, n, env.nodes[n].sequence) in GraphNeighbors(env, u)
  {
    NeighborsExact(env, u);
  }

  /** Where an expanded node leads has been met. */
  lemma ReachedFrom(env: Env, ball: Balls, from: State, st: State, e: Edge, u: string, n: string)
    requires ExpandedClosed(env, ball, from, st, {}) && u in Found(from, st) && !IsQueued(st, u)
    requires Followed(env, ball, e, u, n)
    ensures n in Known(st) && (!Deferrable(env, u) && !Deferrable(env, n) ==> e in st.seenEdges)
  {
    NeighborListed(env, e, u, n);
    assert Settled(env, ball, from, st, {}, u);
    assert Closed(env, st, u, GraphNeighbors(env, u));
  }

  /** With all of ball `d` out of the queue, the search has reached all of ball `d + 1`. */
  lemma NextBall(env: Env, ball: Balls, from: State, st: State, d: nat)
    requires IsBalls(env, Known(from), ball) && ExpandedClosed(env, ball, from, st, {})
    requires d < Radius(env) && ball(d) <= Found(from, st)
    requires forall q | q in st.queue :: q.id !in ball(d)
    ensures ball(d + 1) <= Found(from, st)
  {
    assert ball(d) <= ball(Radius(env) - 1) && Grows(env, ball, d);
    forall n | n in ball(d + 1) ensures n in Found(from, st) {
      if n !in ball(d) {
        var u :| u in ball(d) && Hop(env, u, n);
        var e :| Leads(env, e, u, n);
        assert !IsQueued(st, u);
        ReachedFrom(env, ball, from, st, e, u, n);
      }
    }
  }

  lemma TailDepth(ball: Balls, queue: seq<Queued>, d: nat)
    requires QueueLevels(ball, queue, d) && queue != [] && queue[0].depth == d + 1
    ensures forall q | q in queue :: q.depth == d + 1 && Level(ball, q.id, d + 1)
    ensures QueueLevels(ball, queue, d + 1)
  {
    forall q | q in queue ensures q.depth == d + 1 {
      var i :| 0 <= i < |queue| && queue[i] == q;
    }
  }

  /** The head of the queue decides how far the search has got. */
  lemma Advance(env: Env, ball: Balls, from: State, st: State, d: nat)
    requires IsBalls(env, Known(from), ball) && QueueFound(env, ball, from, st)
    requires Complete(env, ball, from, st, d, {}) && st.queue != []
    ensures Complete(env, ball, from, st, st.queue[0].depth, {})
  {
    assert st.queue[0] in st.queue;
    if st.queue[0].depth == d + 1 {
      TailDepth(ball, st.queue, d);
      NextBall(env, ball, from, st, d);
      assert ball(d + 1) <= ball(d + 2);
    }
  }

  lemma PopSound(env: Env, ball: Balls, from: State, st: State)
    requires Sound(env, ball, from, st) && st.queue != []
    ensures Sound(env, ball, from, st.(queue := st.queue[1..]))
  {
    FollowedGrows(env, ball, from, st, st.(queue := st.queue[1..]));
  }

  /** Taking the head off the queue leaves it busy. */
  lemma PopComplete(env: Env, ball: Balls, from: State, st: State)
    requires st.queue != [] && Complete(env, ball, from, st, st.queue[0].depth, {})
    requires st.queue[0].id in ball(st.queue[0].depth)
    ensures Complete(env, ball, from, st.(queue := st.queue[1..]), st.queue[0].depth, {st.queue[0].id})
  {
    var current, popped := st.queue[0], st.(queue := st.queue[1..]);
    assert forall q :: q in st.queue <==> q == current || q in popped.queue;
    assert forall v :: IsQueued(st, v) <==> v == current.id || IsQueued(popped, v);
    forall v | Settled(env, ball, from, popped, {current.id}, v)
      ensures Closed(env, popped, v, GraphNeighbors(env, v))
    {
      assert Settled(env, ball, from, st, {}, v);
    }
  }

  /** An expanded node is no longer busy; nor is one that cannot be expanded. */
  lemma Settle(env: Env, ball: Balls, from: State, st: State, current: Queued)
    requires IsBalls(env, Known(from), ball) && Complete(env, ball, from, st, current.depth, {current.id})
    requires Level(ball, current.id, current.depth)
    requires Expands(env, current) ==> Closed(env, st, current.id, GraphNeighbors(env, current.id))
    ensures Complete(env, ball, from, st, current.depth, {})
  {
    forall v | Settled(env, ball, from, st, {}, v) ensures Closed(env, st, v, GraphNeighbors(env, v)) {
      if v != current.id { assert Settled(env, ball, from, st, {current.id}, v); }
    }
  }

  lemma StepSearching(env: Env, ball: Balls, budget: int, from: State, st: State, d: nat)
    requires IsBalls(env, Known(from), ball) && st.queue != [] && Invariant(env, budget, from)
    requires Searching(env, ball, budget, from, st, d, {})
    ensures Searching(env, ball, budget, from, Step(env, budget, st), st.queue[0].depth, {})
  {
    var current, popped := st.queue[0], st.(queue := st.queue[1..]);
    assert current in st.queue;
    StepKeeps(env, budget, st);
    PopSound(env, ball, from, st);
    if !st.truncated {
      Advance(env, ball, from, st, d);
      PopComplete(env, ball, from, st);
    }
    assert Invariant(env, budget, popped);
    if Expands(env, current) {
      NeighborsExact(env, current.id);
      VisitAllSearching(env, ball, budget, from, popped, current, GraphNeighbors(env, current.id));
    }
    var after := Step(env, budget, st);
    if !after.truncated { Settle(env, ball, from, after, current); }
  }

  lemma {:induction false} DrainSearching(env: Env, ball: Balls, budget: int, from: State, st: State, d: nat)
    returns (d': nat)
    requires IsBalls(env, Known(from), ball) && Invariant(env, budget, from)
    requires Searching(env, ball, budget, from, st, d, {})
    ensures Searching(env, ball, budget, from, Drain(env, budget, st), d', {}) && Drain(env, budget, st).queue == []
    decreases Work(env, st)
  {
    d' := d;
    if st.queue != [] {
      StepWork(env, budget, st);
      StepSearching(env, ball, budget, from, st, d);
      d' := DrainSearching(env, ball, budget, from, Step(env, budget, st), st.queue[0].depth);
    }
  }

  /** When the queue is empty, everything within the depth limit has been met. */
  lemma {:induction false} Exhausted(env: Env, ball: Balls, from: State, st: State, d: nat, k: nat)
    requires IsBalls(env, Known(from), ball) && Complete(env, ball, from, st, d, {})
    requires st.queue == [] && k <= Radius(env)
    ensures ball(k) <= Found(from, st)
    decreases k
  {
    if k <= d {
      assert ball(k) <= ball(d);
    } else {
      Exhausted(env, ball, from, st, d, k - 1);
      NextBall(env, ball, from, st, k - 1);
    }
  }

  // ---------------------------------------------------------------- the search from one root

  /** A root the search may start from. */
  predicate Startable(env: Env, root: string) {
    root in env.nodes && (root == env.t.explicitRoot || Shown(env, root) || Waits(env, root))
  }

  /** Meeting the root starts its search; an open root without room only sets the flag. */
  lemma RootMet(env: Env, ball: Balls, budget: int, from: State, root: string)
    requires Invariant(env, budget, from) && from.queue == []
    requires root !in Known(from) && Startable(env, root)
    requires IsBalls(env, Known(from), ball) && ball(0) == {root}
    ensures var st := AddNode(env, budget, from, root, 0, root == env.t.explicitRoot).0;
            if root in Known(st) then Searching(env, ball, budget, from, st, 0, {})
            else st.truncated && st == from.(truncated := true, budgetExhausted := true)
  {
    var st := AddNode(env, budget, from, root, 0, root == env.t.explicitRoot).0;
    AddNodeKeeps(env, budget, from, root, 0, root == env.t.explicitRoot);
    if root in Known(st) { OneNode(env, ball, budget, from, st, root); }
  }

  lemma OneNode(env: Env, ball: Balls, budget: int, from: State, st: State, root: string)
    requires IsBalls(env, Known(from), ball) && ball(0) == {root} && from.queue == []
    requires root !in Known(from) && Meets(from, st, root, 0)
    requires Invariant(env, budget, from) && Invariant(env, budget, st)
    requires Extends(from, st) && Fresh(from, st) <= [root]
    ensures Progress(env, ball, from, st, 0, {})
  {
    assert st.queue == [Queued(root, 0)] && Found(from, st) == {root};
    assert st.queue[0] in st.queue;
    forall k: nat ensures {root} <= ball(k) { assert ball(0) <= ball(k); }
    forall k: nat ensures st.visited - from.visited <= ball(k) {
      assert st.visited - from.visited <= Found(from, st) by { FreshFound(env, budget, from, st); }
    }
  }
}
