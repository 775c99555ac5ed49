/**
 What storage hands to the traversal. For a planning graph it counts all entry points of the project
 and lists only as many as the budget, so a larger budget is answered from a longer list.
 */
module GraphStorage {
  import opened IssueGraph
  import opened GraphWellFormed
  import opened GraphBuilder

  /** One request's view of a project: the part loaded as a graph, and all current issues by number and ID. */
  datatype Stored = Stored(rootID: Option<string>, nodes: seq<Node>, edges: seq<Edge>, issues: seq<Node>)

  /** The condition of the entry point query. */
  predicate Listed(t: Traversal, n: Node) { EntryPoint(n) && !(t.excludeReview && n.status.Review?) }

  function ListedIDs(t: Traversal, issues: seq<Node>): seq<string> {
    if issues == [] then []
    else
      var init, last := ListedIDs(t, issues[..|issues| - 1]), issues[|issues| - 1];
      if Listed(t, last) then init + [last.id] else init
  }

  function First(ids: seq<string>, limit: nat): seq<string> {
    if |ids| <= limit then ids else ids[..limit]
  }

  /** The snapshot supplied under a budget: the count of all entry points, and the list cut to the budget. */
  function Supply(stored: Stored, t: Traversal, budget: nat): Snapshot {
    var all := ListedIDs(t, stored.issues);
    if t.preferNonTerminal then
      Snapshot(stored.rootID, stored.nodes, stored.edges, First(all, budget), Some(|all|))
    else
      Snapshot(stored.rootID, stored.nodes, stored.edges, [], None)
  }

  /** The budget changes nothing the traversal reads. */
  function StoredEnv(stored: Stored, t: Traversal): (env: Env)
    ensures forall budget: nat :: MakeEnv(Supply(stored, t, budget), t) == env
  {
    MakeEnv(Supply(stored, t, 0), t)
  }

  function Answer(stored: Stored, t: Traversal, budget: nat): GraphResult {
    Build(Supply(stored, t, budget), t, budget)
  }

  /** Everything listed is counted whatever the budget, and the budget shows the first of it. */
  lemma AnswerEntryPoints(stored: Stored, t: Traversal, budget: nat)
    requires budget >= 1
    ensures var r, all := Answer(stored, t, budget), ListedIDs(t, stored.issues);
            && (t.preferNonTerminal ==> r.entryPointCount == |all| && r.entryPoints == First(all, budget))
            && (!t.preferNonTerminal ==> r.entryPointCount == |r.entryPoints| <= |r.nodes| <= budget)
  {
    var r := Answer(stored, t, budget);
    ResultWellFormed(Supply(stored, t, budget), t, budget);
    ClaimableShort(r.nodes);
  }

  /** Claimable, not finished, and not in review if that is left out. */
  predicate Offered(t: Traversal, n: Node) {
    n.claimable && n.status != Done && n.status != Cancelled && (n.status == Review ==> !t.excludeReview)
  }

  lemma {:induction false} ListedExact(t: Traversal, issues: seq<Node>, id: string)
    ensures id in ListedIDs(t, issues) <==> exists n :: n in issues && n.id == id && Offered(t, n)
  {
    if issues != [] {
      var last := |issues| - 1;
      ListedExact(t, issues[..last], id);
      assert issues == issues[..last] + [issues[last]];
    }
  }

  /** Two issues in the order in which the project lists them. */
  ghost predicate ListedBefore(issues: seq<Node>, a: string, b: string) {
    exists p, q :: 0 <= p < q < |issues| && issues[p].id == a && issues[q].id == b
  }

  /** Entry points come in the order of the project's issues. */
  lemma {:induction false} ListedInOrder(t: Traversal, issues: seq<Node>, i: nat, j: nat)
    requires i < j < |ListedIDs(t, issues)|
    ensures ListedBefore(issues, ListedIDs(t, issues)[i], ListedIDs(t, issues)[j])
  {
    var last := |issues| - 1;
    var init := ListedIDs(t, issues[..last]);
    if j < |init| {
      ListedInOrder(t, issues[..last], i, j);
      var p, q :| 0 <= p < q < last && issues[..last][p].id == init[i] && issues[..last][q].id == init[j];
      assert issues[p].id == init[i] && issues[q].id == init[j];
    } else {
      ListedExact(t, issues[..last], init[i]);
      assert init[i] in init;
      var n :| n in issues[..last] && n.id == init[i];
      var p :| 0 <= p < last && issues[..last][p] == n;
      assert issues[p].id == init[i] && issues[last].id == ListedIDs(t, issues)[j];
    }
  }

  /**
   "What can I claim", as a caller is answered. A planning graph counts every claimable issue of the
   project that is not excluded, whatever the budget; within the budget it names exactly those, beyond
   it a prefix that a larger budget only prolongs. Other graphs name exactly their claimable open nodes.
   */
  lemma EntryPointsAnswered(stored: Stored, t: Traversal, budget: nat, larger: nat, id: string)
    requires 1 <= budget <= larger
    ensures var r, s := Answer(stored, t, budget), Answer(stored, t, larger);
            && (t.preferNonTerminal ==>
                && s.entryPointCount == r.entryPointCount && r.entryPoints <= s.entryPoints
                && (r.entryPointCount > budget ==> |r.entryPoints| == budget)
                && (id in r.entryPoints ==> exists n :: n in stored.issues && n.id == id && Offered(t, n))
                && (r.entryPointCount <= budget && (exists n :: n in stored.issues && n.id == id && Offered(t, n))
                    ==> id in r.entryPoints))
            && (!t.preferNonTerminal ==>
                (id in r.entryPoints <==> exists n :: n in r.nodes && n.id == id && Claimable(n)))
  {
    AnswerEntryPoints(stored, t, budget);
    AnswerEntryPoints(stored, t, larger);
    ListedExact(t, stored.issues, id);
    if !t.preferNonTerminal { EntryPointsExact(Supply(stored, t, budget), t, budget, id); }
  }

  // ---------------------------------------------------------------- the query and the scan agree

  predicate DistinctIDs(nodes: seq<Node>) {
    forall i, j | 0 <= i < j < |nodes| :: nodes[i].id != nodes[j].id
  }

  lemma {:induction false} ByIDExact(nodes: seq<Node>)
    requires DistinctIDs(nodes)
    ensures forall n | n in nodes :: n.id in NodesByID(nodes) && NodesByID(nodes)[n.id] == n
  {
    if nodes != [] {
      var last := |nodes| - 1;
      ByIDExact(nodes[..last]);
      assert nodes == nodes[..last] + [nodes[last]];
    }
  }

  lemma {:induction false} ScanIsQuery(env: Env, nodes: seq<Node>)
    requires forall n | n in nodes :: n.id in env.nodes && env.nodes[n.id] == n
    ensures UnfilteredIDs(env, nodes) == ListedIDs(env.t, nodes)
  {
    if nodes != [] {
      var last := |nodes| - 1;
      assert nodes[last] in nodes;
      ScanIsQuery(env, nodes[..last]);
    }
  }

  lemma SameAssembly(counted: Snapshot, scanned: Snapshot, env: Env, budget: nat, st: State)
    requires (forall id | id in st.retained :: id in env.nodes) && env.t.preferNonTerminal && budget >= 1
    requires var all := UnfilteredIDs(env, scanned.nodes);
             counted == scanned.(planningEntryPoints := First(all, budget), planningEntryPointCount := Some(|all|))
    requires scanned.planningEntryPointCount.None?
    ensures Assemble(counted, env, budget, st) == Assemble(scanned, env, budget, st)
  {
    assert EntryPointsOf(scanned, env, NodesOf(env, st.retained)) == UnfilteredIDs(env, scanned.nodes);
  }

  /**
   When the whole project is loaded, counting and listing by query gives the caller exactly what the
   traversal's own scan of the snapshot would.
   */
  lemma QueryRefinesScan(stored: Stored, t: Traversal, budget: nat)
    requires t.preferNonTerminal && stored.issues == stored.nodes && DistinctIDs(stored.nodes) && budget >= 1
    ensures Answer(stored, t, budget) == Build(Snapshot(stored.rootID, stored.nodes, stored.edges, [], None), t, budget)
  {
    var env := StoredEnv(stored, t);
    var scanned := Snapshot(stored.rootID, stored.nodes, stored.edges, [], None);
    ByIDExact(stored.nodes);
    ScanIsQuery(env, stored.nodes);
    FinalWellFormed(env, budget);
    SameAssembly(Supply(stored, t, budget), scanned, env, budget, Final(env, budget));
  }
}
