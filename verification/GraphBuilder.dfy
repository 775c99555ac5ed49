/**
 `BuildGraph` as the program runs it: maps and lists filled by loops, a queue that is consumed in
 place, and flags set along the way. Every method is proved against the state functions of
 `IssueGraph`, so the results about those functions are results about the program.
 */
module GraphBuilder {
  import opened IssueGraph
  import opened GraphWellFormed
  import opened Ordering

  class Builder {
    const env: Env
    const budget: int

    var retained: seq<string>
    var visited: set<string>
    var queue: seq<Queued>
    var deferred: seq<string>
    var deferredSeen: set<string>
    var edges: seq<Edge>
    var seenEdges: set<Edge>
    var truncated: bool
    var budgetExhausted: bool

    function View(): State
      reads this
    {
      State(retained, visited, queue, deferred, deferredSeen, edges, seenEdges, truncated, budgetExhausted)
    }

    constructor (env: Env, budget: int)
      ensures this.env == env && this.budget == budget && View() == START
    {
      this.env, this.budget := env, budget;
      retained, visited, queue, deferred, deferredSeen := [], {}, [], [], {};
      edges, seenEdges, truncated, budgetExhausted := [], {}, false, false;
    }

    method AddNode(id: string, depth: nat, root: bool) returns (added: bool)
      modifies this
      ensures (View(), added) == IssueGraph.AddNode(env, budget, old(View()), id, depth, root)
    {
      if id in visited { return true; }
      if id !in env.nodes { return false; }
      if Deferrable(env, id) {
        if id !in deferredSeen {
          deferredSeen := deferredSeen + {id};
          queue := queue + [Queued(id, depth)];
          if AllowedNode(env, id, root) { deferred := deferred + [id]; }
        }
        return false;
      }
      if !AllowedNode(env, id, root) { return false; }
      if |retained| >= budget {
        truncated := true;
        budgetExhausted := true;
        return false;
      }
      visited := visited + {id};
      retained := retained + [id];
      queue := queue + [Queued(id, depth)];
      return true;
    }

    method AppendEdge(e: Edge)
      modifies this`edges, this`seenEdges
      ensures View() == IssueGraph.AppendEdge(old(View()), e)
    {
      if e in seenEdges { return; }
      seenEdges := seenEdges + {e};
      edges := edges + [e];
    }

    /** The loop over the neighbours of an expanded node. */
    method Expand(current: Queued)
      modifies this
      ensures View() == VisitAll(env, budget, old(View()), current, GraphNeighbors(env, current.id))
    {
      var candidates := GraphNeighbors(env, current.id);
      ghost var goal := VisitAll(env, budget, View(), current, candidates);
      for i := 0 to |candidates|
        invariant goal == VisitAll(env, budget, View(), current, candidates[i..])
      {
        assert candidates[i..][1..] == candidates[i + 1..];
        Visit(current, candidates[i]);
      }
    }

    /** One turn of that loop. */
    method Visit(current: Queued, candidate: Neighbor)
      modifies this
      ensures View() == IssueGraph.Visit(env, budget, old(View()), current, candidate)
    {
      if !AllowedNode(env, candidate.id, false) && !Deferrable(env, candidate.id) { return; }
      if candidate.id !in visited {
        var added := AddNode(candidate.id, current.depth + 1, false);
        if !added { return; }
      }
      if current.id in visited && candidate.id in visited { AppendEdge(candidate.edge); }
    }

    /** The queue loop. */
    method Drain()
      modifies this
      ensures View() == IssueGraph.Drain(env, budget, old(View()))
    {
      ghost var goal := IssueGraph.Drain(env, budget, View());
      while queue != []
        invariant goal == IssueGraph.Drain(env, budget, View())
        decreases Work(env, View())
      {
        StepWork(env, budget, View());
        var current := queue[0];
        queue := queue[1..];
        if current.depth >= env.t.depth { continue; }
        if Excluded(env, current.id) && !Deferrable(env, current.id) { continue; }
        Expand(current);
      }
    }

    /** The loop over the roots. */
    method PassOne()
      requires View() == START
      modifies this
      ensures View() == IssueGraph.PassOne(env, budget)
    {
      for i := 0 to |env.t.roots|
        invariant FromRoots(env, budget, View(), i) == IssueGraph.PassOne(env, budget)
      {
        var root := env.t.roots[i];
        var explicit := root == env.t.explicitRoot;
        if root in visited { continue; }
        if !AllowedNode(env, root, explicit) && !Deferrable(env, root) { continue; }
        var added := AddNode(root, 0, explicit);
        if !added && budgetExhausted { return; }
        Drain();
      }
    }

    method AppendVisitedEdges(id: string)
      modifies this`edges, this`seenEdges
      ensures View() == IssueGraph.AppendVisitedEdges(old(View()), id, Incident(env.edges, id))
    {
      var incident := Incident(env.edges, id);
      ghost var goal := IssueGraph.AppendVisitedEdges(View(), id, incident);
      for i := 0 to |incident|
        invariant goal == IssueGraph.AppendVisitedEdges(View(), id, incident[i..])
        invariant visited == old(visited)
      {
        assert incident[i..][1..] == incident[i + 1..];
        if Other(incident[i], id) in visited { AppendEdge(incident[i]); }
      }
    }

    /** An edge joins a deferred node to the first pass: the search loop with its early exit. */
    method IsAttached(id: string, retainedByPassOne: set<string>) returns (attached: bool)
      ensures attached == Attached(env, retainedByPassOne, id)
    {
      var incident := Incident(env.edges, id);
      for i := 0 to |incident|
        invariant forall j | 0 <= j < i ::
          Other(incident[j], id) == id || Other(incident[j], id) !in retainedByPassOne
      {
        var other := Other(incident[i], id);
        if other != id && other in retainedByPassOne {
          assert incident[i] in incident;
          return true;
        }
      }
      return false;
    }

    /** The loop over the deferred nodes. */
    method PassTwo()
      modifies this
      ensures View() == IssueGraph.PassTwo(env, budget, old(View()))
    {
      hide Attached;
      var retainedByPassOne := visited;
      ghost var goal := IssueGraph.PassTwo(env, budget, View());
      for i := 0 to |deferred|
        invariant deferred == old(deferred)
        invariant goal == FromDeferred(env, budget, retainedByPassOne, View(), i)
      {
        if |retained| >= budget {
          truncated := true;
          return;
        }
        var id := deferred[i];
        var attached := IsAttached(id, retainedByPassOne);
        if !attached { continue; }
        AdmitKeepsDeferred(env, View(), id);
        visited := visited + {id};
        retained := retained + [id];
        AppendVisitedEdges(id);
      }
    }
  }

  /** `nodesByID`. */
  method IndexNodes(nodes: seq<Node>) returns (byID: map<string, Node>)
    ensures byID == NodesByID(nodes)
  {
    byID := map[];
    for i := 0 to |nodes|
      invariant byID == NodesByID(nodes[..i])
    {
      assert nodes[..i + 1][..i] == nodes[..i];
      byID := byID[nodes[i].id := nodes[i]];
    }
    assert nodes[..|nodes|] == nodes;
  }

  /** The edge filter in front of the adjacency lists. */
  method FilterEdges(edges: seq<Edge>, nodes: map<string, Node>, t: Traversal) returns (usable: seq<Edge>)
    ensures usable == UsableEdges(edges, nodes, t)
  {
    usable := [];
    for i := 0 to |edges|
      invariant usable == UsableEdges(edges[..i], nodes, t)
    {
      assert edges[..i + 1][..i] == edges[..i];
      if !AllowedType(t, edges[i].kind) { continue; }
      if edges[i].source !in nodes { continue; }
      if edges[i].target !in nodes { continue; }
      usable := usable + [edges[i]];
    }
    assert edges[..|edges|] == edges;
  }

  /** `BuildGraph`. */
  method BuildGraph(snapshot: Snapshot, t: Traversal, budget: int) returns (result: GraphResult)
    requires EntryPointsSupplied(snapshot, t, budget)
    ensures result == Build(snapshot, t, budget)
  {
    var nodes := IndexNodes(snapshot.nodes);
    var edges := FilterEdges(snapshot.edges, nodes, t);
    var builder := new Builder(Env(nodes, edges, t), budget);
    builder.PassOne();
    builder.PassTwo();
    FinalWellFormed(builder.env, budget);
    result := Assemble(snapshot, builder.env, budget, builder.View());
  }

  lemma ResultNodes(snapshot: Snapshot, t: Traversal, budget: nat)
    requires EntryPointsSupplied(snapshot, t, budget) && budget >= 1
    ensures var env := MakeEnv(snapshot, t);
            var r := Build(snapshot, t, budget);
            && |r.nodes| <= budget
            && (forall i, j | 0 <= i < j < |r.nodes| :: r.nodes[i].id != r.nodes[j].id)
            && (forall n | n in r.nodes :: n in snapshot.nodes)
            && (forall id | id in Final(env, budget).visited :: exists n :: n in r.nodes && n.id == id)
  {
    var env := MakeEnv(snapshot, t);
    var st := Final(env, budget);
    FinalWellFormed(env, budget);
    var r := Build(snapshot, t, budget);
    forall n | n in r.nodes ensures n in snapshot.nodes {
      var i :| 0 <= i < |st.retained| && n == env.nodes[st.retained[i]];
    }
    forall id | id in st.visited ensures exists n :: n in r.nodes && n.id == id { NodePresent(env, st.retained, id); }
  }

  lemma ResultEdges(snapshot: Snapshot, t: Traversal, budget: nat)
    requires EntryPointsSupplied(snapshot, t, budget)
    ensures var env := MakeEnv(snapshot, t);
            var r := Build(snapshot, t, budget);
            && StrictlySorted(r.edges, EdgeOrder(env.nodes))
            && forall e | e in r.edges ::
                 && e in snapshot.edges && Related(t, e)
                 && e.source in Final(env, budget).visited && e.target in Final(env, budget).visited
  {
    var env := MakeEnv(snapshot, t);
    var st := Final(env, budget);
    FinalWellFormed(env, budget);
    EdgesComparable(env, st.edges);
    ByKey((e: Edge) => EdgeKey(env.nodes, e), EdgeOrder(env.nodes));
    SortStrict(st.edges, EdgeOrder(env.nodes));
  }

  /**
   What every caller gets: distinct known nodes within the budget, distinct edges between them in
   canonical order, and no entry point list longer than the budget.
   */
  lemma ResultWellFormed(snapshot: Snapshot, t: Traversal, budget: nat)
    requires EntryPointsSupplied(snapshot, t, budget) && budget >= 1
    ensures var env := MakeEnv(snapshot, t);
            var r := Build(snapshot, t, budget);
            && |r.nodes| <= budget
            && (forall i, j | 0 <= i < j < |r.nodes| :: r.nodes[i].id != r.nodes[j].id)
            && (forall n | n in r.nodes :: n in snapshot.nodes)
            && StrictlySorted(r.edges, EdgeOrder(env.nodes))
            && (forall e | e in r.edges :: e in snapshot.edges && Related(t, e)
                  && (exists n :: n in r.nodes && n.id == e.source) && (exists n :: n in r.nodes && n.id == e.target))
            && (EntryPointCount(snapshot, env, r.nodes) > budget ==> |r.entryPoints| == budget)
  {
    ResultNodes(snapshot, t, budget);
    ResultEdges(snapshot, t, budget);
  }

  lemma {:induction false} ClaimableExact(nodes: seq<Node>, id: string)
    ensures id in ClaimableIDs(nodes) <==> exists n :: n in nodes && n.id == id && Claimable(n)
  {
    if nodes != [] {
      var last := |nodes| - 1;
      ClaimableExact(nodes[..last], id);
      assert nodes == nodes[..last] + [nodes[last]];
    }
  }

  lemma {:induction false} UnfilteredExact(env: Env, nodes: seq<Node>, id: string)
    ensures id in UnfilteredIDs(env, nodes)
            <==> exists n :: n in nodes && n.id == id && Claimable(n) && Shown(env, id)
  {
    if nodes != [] {
      var last := |nodes| - 1;
      UnfilteredExact(env, nodes[..last], id);
      assert nodes == nodes[..last] + [nodes[last]];
    }
  }

  /**
   Entry points answer "what can I claim". A rooted graph names exactly its claimable open nodes. A
   planning graph names exactly the stored entry points if there are any, and otherwise those of the
   whole snapshot that are not excluded, in or out of the graph; both are cut off only at the budget.
   */
  lemma EntryPointsExact(snapshot: Snapshot, t: Traversal, budget: nat, id: string)
    requires EntryPointsSupplied(snapshot, t, budget) && budget >= 1
    ensures var env := MakeEnv(snapshot, t);
            var r := Build(snapshot, t, budget);
            && (!t.preferNonTerminal ==>
                (id in r.entryPoints <==> exists n :: n in r.nodes && n.id == id && Claimable(n)))
            && (t.preferNonTerminal && r.entryPointCount <= budget ==>
                (id in r.entryPoints
                 <==> if snapshot.planningEntryPointCount.Some? then id in snapshot.planningEntryPoints
                      else exists n :: n in snapshot.nodes && n.id == id && Claimable(n) && Shown(env, id)))
            && (t.preferNonTerminal && r.entryPointCount > budget && snapshot.planningEntryPointCount.Some? ==>
                |r.entryPoints| == budget && r.entryPoints <= snapshot.planningEntryPoints)
  {
    var env := MakeEnv(snapshot, t);
    var r := Build(snapshot, t, budget);
    ResultWellFormed(snapshot, t, budget);
    ClaimableExact(r.nodes, id);
    ClaimableShort(r.nodes);
    UnfilteredExact(env, snapshot.nodes, id);
  }

  lemma {:induction false} ClaimableShort(nodes: seq<Node>)
    ensures |ClaimableIDs(nodes)| <= |nodes|
  {
    if nodes != [] { ClaimableShort(nodes[..|nodes| - 1]); }
  }

  /** The budget never changes which entry points a planning graph counts. */
  lemma EntryPointsIgnoreBudget(snapshot: Snapshot, t: Traversal, budget: nat, larger: nat)
    requires EntryPointsSupplied(snapshot, t, budget) && EntryPointsSupplied(snapshot, t, larger)
    requires 1 <= budget <= larger && t.preferNonTerminal
    ensures var r, s := Build(snapshot, t, budget), Build(snapshot, t, larger);
            r.entryPointCount == s.entryPointCount && r.entryPoints <= s.entryPoints
  {
  }

  lemma {:induction false} BlockingExact(env: Env, edges: seq<Edge>, ids: seq<string>, id: string)
    ensures id in BlockingIDs(env, edges, ids) <==> id in ids && Blocks(env, edges, id)
  {
    if ids != [] {
      var last := |ids| - 1;
      BlockingExact(env, edges, ids[..last], id);
      assert ids == ids[..last] + [ids[last]];
    }
  }

  /** The blocking nodes are exactly the unfinished nodes from which a `blocks` edge of the graph starts. */
  lemma BlockingNodesExact(snapshot: Snapshot, t: Traversal, budget: nat, id: string)
    requires EntryPointsSupplied(snapshot, t, budget) && budget >= 1
    ensures var r := Build(snapshot, t, budget);
            id in r.blockingNodes
            <==> (exists n :: n in r.nodes && n.id == id && n.status != Done && n.status != Cancelled)
                 && exists e :: e in r.edges && e.kind == "blocks" && e.source == id
  {
    var env := MakeEnv(snapshot, t);
    var st := Final(env, budget);
    var r := Build(snapshot, t, budget);
    FinalWellFormed(env, budget);
    BlockingExact(env, r.edges, st.retained, id);
    if id in st.retained { NodePresent(env, st.retained, id); }
    forall n | n in r.nodes ensures n.id in st.retained && n == env.nodes[n.id] {
      var i :| 0 <= i < |st.retained| && n == env.nodes[st.retained[i]];
      assert st.retained[i] in st.retained;
    }
  }

  lemma NodePresent(env: Env, ids: seq<string>, id: string)
    requires (forall x | x in ids :: x in env.nodes && env.nodes[x].id == x) && id in ids
    ensures exists n :: n in NodesOf(env, ids) && n.id == id
  {
    var i :| 0 <= i < |ids| && ids[i] == id;
    assert NodesOf(env, ids)[i] in NodesOf(env, ids);
  }

  /** Distinct edges have distinct keys, so their canonical order is the only one. */
  lemma EdgesComparable(env: Env, edges: seq<Edge>)
    requires Distinct(edges)
    ensures Comparable(edges, EdgeOrder(env.nodes))
  {
    forall i, j | 0 <= i < j < |edges|
      ensures EdgeOrder(env.nodes)(edges[i], edges[j]) || EdgeOrder(env.nodes)(edges[j], edges[i])
    {
      KeyTotal(EdgeKey(env.nodes, edges[i]), EdgeKey(env.nodes, edges[j]));
      EdgeKeyInjective(env.nodes, edges[i], edges[j]);
    }
  }

  lemma EdgeKeyInjective(nodes: map<string, Node>, e: Edge, f: Edge)
    ensures EdgeKey(nodes, e) == EdgeKey(nodes, f) ==> e == f
  {
    var a, b := EdgeKey(nodes, e), EdgeKey(nodes, f);
    if a == b { assert a[0] == b[0] && a[2] == b[2] && a[4] == b[4]; }
  }
}
