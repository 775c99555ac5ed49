/**
 What a caller may read off a result, in terms of the snapshot, statuses and flags alone: which issues
 and relations it holds, and in which order.
 */
module GraphMeaning {
  import opened GraphBudget
  import opened GraphBuilder
  import opened GraphDistance
  import opened GraphReach
  import opened GraphStorage
  import opened GraphWellFormed
  import opened IssueGraph
  import opened Ordering

  /** Something else that is not waiting, among the nodes met, to which a relation joins it. */
  ghost predicate JoinedTo(env: Env, met: set<string>, id: string, e: Edge, other: string) {
    && e in env.edges && ((e.source == id && e.target == other) || (e.target == id && e.source == other))
    && other != id && other in met && !Waits(env, other)
  }

  /** Open work met by the searches, and finished work that is shown and joined to some of it. */
  ghost predicate InGraph(env: Env, met: set<string>, id: string) {
    id in met && (Waits(env, id) ==> Shown(env, id) && exists e, other :: JoinedTo(env, met, id, e, other))
  }

  lemma KeptExact(env: Env, met: set<string>, id: string)
    ensures Kept(env, met, id) <==> InGraph(env, met, id)
  {
    var open := OpenOf(env, met);
    if Attached(env, open, id) {
      var e :| e in Incident(env.edges, id) && Other(e, id) != id && Other(e, id) in open;
      assert JoinedTo(env, met, id, e, Other(e, id));
    }
    if e, other :| JoinedTo(env, met, id, e, other) {
      assert e in Incident(env.edges, id) && Other(e, id) == other;
    }
  }

  lemma NodesAreRetained(snapshot: Snapshot, t: Traversal, budget: nat, n: Node)
    requires EntryPointsSupplied(snapshot, t, budget)
    ensures n in Build(snapshot, t, budget).nodes
            <==> n.id in Final(MakeEnv(snapshot, t), budget).retained && Latest(snapshot.nodes, n)
  {
    var env := MakeEnv(snapshot, t);
    var st := Final(env, budget);
    FinalWellFormed(env, budget);
    EnvExact(snapshot, t);
    if n.id in st.retained {
      var i :| 0 <= i < |st.retained| && st.retained[i] == n.id;
      assert NodesOf(env, st.retained)[i] == env.nodes[n.id];
    }
    if n in NodesOf(env, st.retained) {
      var i :| 0 <= i < |st.retained| && NodesOf(env, st.retained)[i] == n;
      assert st.retained[i] in st.retained;
    }
  }

  /**
   Whatever the budget: a result holds only current issues, each of them shown unless it is the issue
   asked for; relations the traversal follows, between issues of the result. It is cut off only when
   full, and otherwise reports a limit exactly when more entry points are counted than fit.
   */
  lemma ResultShown(snapshot: Snapshot, t: Traversal, budget: nat)
    requires EntryPointsSupplied(snapshot, t, budget) && budget >= 1
    ensures var r := Build(snapshot, t, budget);
            && (forall n | n in r.nodes :: Latest(snapshot.nodes, n) && (n.id == t.explicitRoot || ShownNode(t, n)))
            && (forall e | e in r.edges :: e in snapshot.edges && Related(t, e)
                  && (exists n :: n in r.nodes && n.id == e.source) && (exists n :: n in r.nodes && n.id == e.target))
            && (r.reason == Some(NodeLimit) ==> |r.nodes| == budget)
            && (r.reason == Some(EntryPointLimit) ==> r.entryPointCount > budget)
            && (r.entryPointCount > budget ==> r.reason.Some?)
  {
    var env := MakeEnv(snapshot, t);
    var r := Build(snapshot, t, budget);
    ResultWellFormed(snapshot, t, budget);
    FinalWellFormed(env, budget);
    EnvExact(snapshot, t);
    forall n | n in r.nodes ensures Latest(snapshot.nodes, n) && (n.id == t.explicitRoot || ShownNode(t, n)) {
      NodesAreRetained(snapshot, t, budget, n);
      RulesExact(env, n.id);
    }
  }

  /** Untruncated, for any roots: exactly the open work the searches meet and the shown finished work joined to it. */
  lemma ResultNodesExact(snapshot: Snapshot, t: Traversal, budget: nat, n: Node)
    requires EntryPointsSupplied(snapshot, t, budget) && budget >= 1
    requires Build(snapshot, t, budget).reason != Some(NodeLimit)
    ensures var env := MakeEnv(snapshot, t);
            n in Build(snapshot, t, budget).nodes
            <==> Latest(snapshot.nodes, n) && InGraph(env, ReachAll(env), n.id)
  {
    var env := MakeEnv(snapshot, t);
    NodesAreRetained(snapshot, t, budget, n);
    GraphExact(env, budget, n.id);
    KeptExact(env, ReachAll(env), n.id);
  }

  // ---------------------------------------------------------------- one root

  ghost predicate HasNode(nodes: seq<Node>, id: string) { exists n :: n in nodes && n.id == id }

  /** An edge walked within the depth limit between open nodes. */
  ghost predicate Walked(env: Env, root: string, e: Edge) {
    exists u, n :: WalkedFrom(env, root, e, u, n)
  }

  ghost predicate WalkedFrom(env: Env, root: string, e: Edge, u: string, n: string) {
    && Radius(env) > 0 && u in Ball(env, {}, root, Radius(env) - 1)
    && Hop(env, u, n) && Leads(env, e, u, n) && !Waits(env, u) && !Waits(env, n)
  }

  lemma WalkedExact(env: Env, root: string, e: Edge)
    ensures OpenFollowed(env, BallsAround(env, {}, root), e) <==> Walked(env, root, e)
  {
    var ball := BallsAround(env, {}, root);
    forall u, n
      ensures Followed(env, ball, e, u, n) && !Deferrable(env, u) && !Deferrable(env, n)
              <==> WalkedFrom(env, root, e, u, n)
    {
      RulesExact(env, u);
      RulesExact(env, n);
    }
  }

  lemma RetainedHas(snapshot: Snapshot, t: Traversal, budget: nat, id: string)
    requires EntryPointsSupplied(snapshot, t, budget)
    ensures HasNode(Build(snapshot, t, budget).nodes, id) <==> id in Final(MakeEnv(snapshot, t), budget).visited
  {
    var env := MakeEnv(snapshot, t);
    FinalWellFormed(env, budget);
    EnvExact(snapshot, t);
    if id in Final(env, budget).retained {
      NodesAreRetained(snapshot, t, budget, env.nodes[id]);
      assert Latest(snapshot.nodes, env.nodes[id]);
    }
    if HasNode(Build(snapshot, t, budget).nodes, id) {
      var n :| n in Build(snapshot, t, budget).nodes && n.id == id;
      NodesAreRetained(snapshot, t, budget, n);
    }
  }

  /**
   Untruncated, from one root: exactly the issues and relations that distance, statuses and flags prescribe.
   Relations are those walked between open issues, and all between issues of the result that touch finished work.
   */
  lemma ResultExact(snapshot: Snapshot, t: Traversal, budget: nat, root: string)
    requires EntryPointsSupplied(snapshot, t, budget) && budget >= 1
    requires OneRoot(MakeEnv(snapshot, t), root) && Build(snapshot, t, budget).reason != Some(NodeLimit)
    ensures var env := MakeEnv(snapshot, t);
            var r := Build(snapshot, t, budget);
            && (forall n :: n in r.nodes
                  <==> Latest(snapshot.nodes, n) && InGraph(env, Ball(env, {}, root, Radius(env)), n.id))
            && (forall e :: e in r.edges
                  <==> Walked(env, root, e)
                       || (e in env.edges && HasNode(r.nodes, e.source) && HasNode(r.nodes, e.target)
                           && (Waits(env, e.source) || Waits(env, e.target))))
  {
    var env := MakeEnv(snapshot, t);
    var r := Build(snapshot, t, budget);
    var st := Final(env, budget);
    OneRootReach(env, root);
    forall n ensures n in r.nodes
                     <==> Latest(snapshot.nodes, n) && InGraph(env, Ball(env, {}, root, Radius(env)), n.id) {
      ResultNodesExact(snapshot, t, budget, n);
    }
    SearchExact(env, root, budget);
    forall e ensures e in r.edges
                     <==> Walked(env, root, e)
                          || (e in env.edges && HasNode(r.nodes, e.source) && HasNode(r.nodes, e.target)
                              && (Waits(env, e.source) || Waits(env, e.target))) {
      SortedEdges(env, st, e);
      WalkedExact(env, root, e);
      RetainedHas(snapshot, t, budget, e.source);
      RetainedHas(snapshot, t, budget, e.target);
      RulesExact(env, e.source);
      RulesExact(env, e.target);
    }
  }

  lemma SortedEdges(env: Env, st: State, e: Edge)
    ensures e in Sort(st.edges, EdgeOrder(env.nodes)) <==> e in st.edges
  {
    SortContents(st.edges, EdgeOrder(env.nodes));
    SameContentsSameElements(Sort(st.edges, EdgeOrder(env.nodes)), st.edges);
  }

  lemma NodeAt(snapshot: Snapshot, t: Traversal, budget: nat, i: nat)
    requires EntryPointsSupplied(snapshot, t, budget)
    ensures var st := Final(MakeEnv(snapshot, t), budget);
            |Build(snapshot, t, budget).nodes| == |st.retained|
            && (i < |st.retained| ==> Build(snapshot, t, budget).nodes[i].id == st.retained[i])
  {
    FinalWellFormed(MakeEnv(snapshot, t), budget);
    if i < |Final(MakeEnv(snapshot, t), budget).retained| {
      assert Final(MakeEnv(snapshot, t), budget).retained[i] in Final(MakeEnv(snapshot, t), budget).retained;
    }
  }

  /** Open nodes are exactly those at the front, which the first pass retained. */
  lemma OpenFirst(env: Env, root: string, budget: nat, i: nat)
    requires OneRoot(env, root) && i < |Final(env, budget).retained|
    ensures var one, all := PassOne(env, budget), Final(env, budget).retained;
            && one.retained <= all && (Waits(env, all[i]) <==> i >= |one.retained|)
            && (i >= |one.retained| ==> !one.truncated)
  {
    var one, all := PassOne(env, budget), Final(env, budget).retained;
    SearchNearestFirst(env, root, budget);
    PassOneKeeps(env, budget);
    RulesExact(env, all[i]);
    if i < |one.retained| {
      assert all[i] == one.retained[i] && one.retained[i] in one.retained;
    } else {
      assert all[i] == all[|one.retained|..][i - |one.retained|];
      assert all[i] in all[|one.retained|..];
    }
  }

  lemma OpenMissing(env: Env, root: string, budget: nat, k: nat, id: string, j: nat)
    requires OneRoot(env, root) && k <= Radius(env) && id in Ball(env, {}, root, k) && !Waits(env, id)
    requires id !in Final(env, budget).visited && j < |Final(env, budget).retained|
    ensures var all := Final(env, budget).retained; !Waits(env, all[j]) && all[j] in Ball(env, {}, root, k)
  {
    var one, all := PassOne(env, budget), Final(env, budget).retained;
    OpenFirst(env, root, budget, j);
    SearchNearestFirst(env, root, budget);
    PassOneReach(env, budget);
    PassOneKeeps(env, budget);
    FinalWellFormed(env, budget);
    OneRootReach(env, root);
    BallGrows(env, {}, root, k, Radius(env));
    RulesExact(env, id);
    assert id !in one.visited by { assert forall x | x in one.retained :: x in all; }
    assert NearestAt(env, BallsAround(env, {}, root), one.visited, k);
    if j < |one.retained| { assert one.retained[j] in one.retained; }
  }

  /**
   From one root, under any budget: open issues come first, nearest first; none is left out for a farther
   one; finished ones follow, and only if no open one was left out.
   */
  lemma ResultNearestFirst(snapshot: Snapshot, t: Traversal, budget: nat, root: string, i: nat, j: nat, k: nat)
    requires EntryPointsSupplied(snapshot, t, budget) && OneRoot(MakeEnv(snapshot, t), root)
    requires i <= j < |Build(snapshot, t, budget).nodes|
    ensures var env := MakeEnv(snapshot, t);
            var r := Build(snapshot, t, budget);
            var ball := Ball(env, {}, root, k);
            && (Waits(env, r.nodes[i].id) ==> Waits(env, r.nodes[j].id))
            && (!Waits(env, r.nodes[j].id) && r.nodes[j].id in ball ==> r.nodes[i].id in ball)
            && (forall id | id in ball && k <= Radius(env) && !Waits(env, id) && !HasNode(r.nodes, id) ::
                  !Waits(env, r.nodes[j].id) && r.nodes[j].id in ball)
  {
    var env := MakeEnv(snapshot, t);
    var r := Build(snapshot, t, budget);
    var ball := Ball(env, {}, root, k);
    NodeAt(snapshot, t, budget, i);
    NodeAt(snapshot, t, budget, j);
    OpenFirst(env, root, budget, i);
    OpenFirst(env, root, budget, j);
    if j < |PassOne(env, budget).retained| { InOrderAt(env, root, budget, i, j, k); }
    forall id | id in ball && k <= Radius(env) && !Waits(env, id) && !HasNode(r.nodes, id)
      ensures !Waits(env, r.nodes[j].id) && r.nodes[j].id in ball
    {
      RetainedHas(snapshot, t, budget, id);
      OpenMissing(env, root, budget, k, id, j);
    }
  }

  lemma InOrderAt(env: Env, root: string, budget: nat, i: nat, j: nat, k: nat)
    requires OneRoot(env, root) && i <= j < |PassOne(env, budget).retained|
    ensures var one := PassOne(env, budget).retained;
            one[j] in Ball(env, {}, root, k) ==> one[i] in Ball(env, {}, root, k)
  {
    SearchNearestFirst(env, root, budget);
    var ball := BallsAround(env, {}, root);
    assert ball(k) == Ball(env, {}, root, k);
  }

  // ---------------------------------------------------------------- the order of relations

  /** Type, then number and ID of the source, then number and ID of the target. */
  ghost predicate EdgePrecedes(nodes: map<string, Node>, a: Edge, b: Edge)
    requires {a.source, a.target, b.source, b.target} <= nodes.Keys
  {
    || Precedes(a.kind, b.kind)
    || (a.kind == b.kind
        && (IssuePrecedes(nodes[a.source], nodes[b.source])
            || (nodes[a.source] == nodes[b.source] && IssuePrecedes(nodes[a.target], nodes[b.target]))))
  }

  ghost predicate IssuePrecedes(m: Node, n: Node) {
    m.sequence < n.sequence || (m.sequence == n.sequence && Precedes(m.id, n.id))
  }

  lemma EdgeOrderExact(nodes: map<string, Node>, a: Edge, b: Edge)
    requires {a.source, a.target, b.source, b.target} <= nodes.Keys
    requires forall id | id in nodes :: nodes[id].id == id
    ensures EdgeOrder(nodes)(a, b) <==> EdgePrecedes(nodes, a, b)
  {
    hide KeyLess, Precedes;
    var m, n, p, q := nodes[a.source], nodes[b.source], nodes[a.target], nodes[b.target];
    var x, y := [Count(p.sequence)] + ([Name(p.id)] + []), [Count(q.sequence)] + ([Name(q.id)] + []);
    assert EdgeKey(nodes, a) == [Name(a.kind)] + ([Count(m.sequence)] + ([Name(m.id)] + x));
    assert EdgeKey(nodes, b) == [Name(b.kind)] + ([Count(n.sequence)] + ([Name(n.id)] + y));
    NameFirst(a.kind, b.kind, [Count(m.sequence)] + ([Name(m.id)] + x), [Count(n.sequence)] + ([Name(n.id)] + y));
    CountFirst(m.sequence, n.sequence, [Name(m.id)] + x, [Name(n.id)] + y);
    NameFirst(m.id, n.id, x, y);
    CountFirst(p.sequence, q.sequence, [Name(p.id)] + [], [Name(q.id)] + []);
    NameFirst(p.id, q.id, [], []);
    NothingLess();
  }

  lemma EndsKnown(snapshot: Snapshot, t: Traversal, budget: nat, e: Edge)
    requires EntryPointsSupplied(snapshot, t, budget) && e in Build(snapshot, t, budget).edges
    ensures {e.source, e.target} <= MakeEnv(snapshot, t).nodes.Keys
  {
    ResultEdges(snapshot, t, budget);
    FinalWellFormed(MakeEnv(snapshot, t), budget);
  }

  /** The relations of a result come in that order. */
  lemma EdgesInOrder(snapshot: Snapshot, t: Traversal, budget: nat, i: nat, j: nat)
    requires EntryPointsSupplied(snapshot, t, budget) && budget >= 1
    requires i < j < |Build(snapshot, t, budget).edges|
    ensures var nodes, edges := MakeEnv(snapshot, t).nodes, Build(snapshot, t, budget).edges;
            && {edges[i].source, edges[i].target, edges[j].source, edges[j].target} <= nodes.Keys
            && EdgePrecedes(nodes, edges[i], edges[j])
  {
    var env, edges := MakeEnv(snapshot, t), Build(snapshot, t, budget).edges;
    EnvExact(snapshot, t);
    ResultEdges(snapshot, t, budget);
    EndsKnown(snapshot, t, budget, edges[i]);
    EndsKnown(snapshot, t, budget, edges[j]);
    hide EdgePrecedes, EdgeKey, KeyLess;
    EdgeOrderExact(env.nodes, edges[i], edges[j]);
    assert EdgeOrder(env.nodes)(edges[i], edges[j]);
  }

  // ---------------------------------------------------------------- the lists that go with a result

  lemma {:induction false} ClaimableListed(nodes: seq<Node>, i: nat, j: nat)
    requires i < j < |ClaimableIDs(nodes)|
    ensures ListedBefore(nodes, ClaimableIDs(nodes)[i], ClaimableIDs(nodes)[j])
  {
    var last, ids := |nodes| - 1, ClaimableIDs(nodes);
    var init := ClaimableIDs(nodes[..last]);
    if j < |init| {
      ClaimableListed(nodes[..last], i, j);
      ListedBeforeMore(nodes, last, ids[i], ids[j]);
    } else {
      ClaimableExact(nodes[..last], init[i]);
      assert init[i] in init;
      var n :| n in nodes[..last] && n.id == init[i];
      ListedBeforeLast(nodes, n);
    }
  }

  lemma ListedBeforeMore(nodes: seq<Node>, last: nat, a: string, b: string)
    requires last <= |nodes| && ListedBefore(nodes[..last], a, b)
    ensures ListedBefore(nodes, a, b)
  {
    var p, q :| 0 <= p < q < last && nodes[..last][p].id == a && nodes[..last][q].id == b;
    assert nodes[p].id == a && nodes[q].id == b;
  }

  lemma ListedBeforeLast(nodes: seq<Node>, n: Node)
    requires nodes != [] && n in nodes[..|nodes| - 1]
    ensures ListedBefore(nodes, n.id, nodes[|nodes| - 1].id)
  {
    var p :| 0 <= p < |nodes| - 1 && nodes[..|nodes| - 1][p] == n;
    assert nodes[p].id == n.id;
  }

  lemma {:induction false} BlockingListed(
    env: Env, edges: seq<Edge>, nodes: seq<Node>, ids: seq<string>, i: nat, j: nat)
    requires |nodes| == |ids| && forall k | 0 <= k < |ids| :: nodes[k].id == ids[k]
    requires i < j < |BlockingIDs(env, edges, ids)|
    ensures ListedBefore(nodes, BlockingIDs(env, edges, ids)[i], BlockingIDs(env, edges, ids)[j])
  {
    hide Blocks;
    var last, blocking := |ids| - 1, BlockingIDs(env, edges, ids);
    var init := BlockingIDs(env, edges, ids[..last]);
    if j < |init| {
      BlockingListed(env, edges, nodes[..last], ids[..last], i, j);
      ListedBeforeMore(nodes, last, blocking[i], blocking[j]);
    } else {
      BlockingExact(env, edges, ids[..last], init[i]);
      assert init[i] in init;
      var k :| 0 <= k < last && ids[..last][k] == init[i];
      assert nodes[..last][k].id == init[i];
      ListedBeforeLast(nodes, nodes[k]);
    }
  }

  /** Claimable issues of a rooted graph, and blocking issues of any graph, come in the order of its issues. */
  lemma ListsInOrder(snapshot: Snapshot, t: Traversal, budget: nat, i: nat, j: nat)
    requires EntryPointsSupplied(snapshot, t, budget) && budget >= 1 && i < j
    ensures var r := Build(snapshot, t, budget);
            && (j < |r.blockingNodes| ==> ListedBefore(r.nodes, r.blockingNodes[i], r.blockingNodes[j]))
            && (!t.preferNonTerminal && j < |r.entryPoints| ==>
                ListedBefore(r.nodes, r.entryPoints[i], r.entryPoints[j]))
  {
    hide ListedBefore;
    var env, r := MakeEnv(snapshot, t), Build(snapshot, t, budget);
    FinalWellFormed(env, budget);
    EnvExact(snapshot, t);
    if j < |r.blockingNodes| { BlockingListed(env, r.edges, r.nodes, Final(env, budget).retained, i, j); }
    if !t.preferNonTerminal && j < |r.entryPoints| { ClaimableListed(r.nodes, i, j); }
  }
}
