/**
 Which reason a truncated answer gives: when `node_limit` covers every project whose entry points do
 not fit, and an answer where it does not.
 */
module GraphReasons {
  import opened GraphBudget
  import opened GraphDistance
  import opened GraphReach
  import opened GraphStorage
  import opened GraphTruncation
  import opened GraphWellFormed
  import opened IssueGraph
  import Ordering

  /** The reason is single-valued, and documented to be `node_limit` whenever the entry points do not fit. */
  ghost predicate NodeLimitWins(stored: Stored, t: Traversal) {
    forall budget: nat | budget >= 1 && Answer(stored, t, budget).entryPointCount > budget
      :: Answer(stored, t, budget).reason == Some(NodeLimit)
  }

  lemma ReasonExact(stored: Stored, t: Traversal, budget: nat)
    requires budget >= 1
    ensures var env := StoredEnv(stored, t);
            Answer(stored, t, budget).reason == Some(NodeLimit)
            <==> Demand(env) > budget
                 || (Demand(env) == budget && LastUnattached(env, Whole(env).visited, Whole(env).deferred))
  {
    NodeFlag(StoredEnv(stored, t), budget);
  }

  /** It is, under every budget, exactly when the graph wants as many nodes as there are entry points. */
  lemma NodeLimitWinsIff(stored: Stored, t: Traversal)
    requires t.preferNonTerminal
    ensures var env, count := StoredEnv(stored, t), |ListedIDs(t, stored.issues)|;
            NodeLimitWins(stored, t)
            <==> count <= 1 || Demand(env) >= count
                 || (Demand(env) == count - 1 && LastUnattached(env, Whole(env).visited, Whole(env).deferred))
  {
    var count := |ListedIDs(t, stored.issues)|;
    forall budget: nat | budget >= 1 ensures Answer(stored, t, budget).entryPointCount == count {
      AnswerEntryPoints(stored, t, budget);
    }
    forall budget: nat | 1 <= budget < count { ReasonExact(stored, t, budget); }
    if count > 1 { assert Answer(stored, t, count - 1).entryPointCount > count - 1; }
  }

  lemma WholeReach(env: Env)
    ensures Whole(env).visited == OpenOf(env, ReachAll(env))
    ensures |Whole(env).visited| == |Whole(env).retained| <= Demand(env)
  {
    WholeUntruncated(env);
    PassOneReach(env, |env.nodes| + 1);
    DistinctSize(Whole(env).retained, Whole(env).visited);
  }

  lemma {:induction false} DistinctSize(ids: seq<string>, all: set<string>)
    requires Distinct(ids) && forall id :: id in ids <==> id in all
    ensures |ids| == |all|
  {
    if ids == [] {
      assert all == {};
    } else {
      var last := |ids| - 1;
      assert ids == ids[..last] + [ids[last]];
      DistinctSize(ids[..last], all - {ids[last]});
    }
  }

  /** If every entry point is reached, a project with more of them than the budget exhausts the node budget too. */
  lemma ReachedEntryPointsWin(stored: Stored, t: Traversal)
    requires t.preferNonTerminal && DistinctIDs(stored.issues)
    requires forall n | n in stored.issues && Offered(t, n) ::
               n.id in ReachAll(StoredEnv(stored, t)) && !Deferrable(StoredEnv(stored, t), n.id)
    ensures NodeLimitWins(stored, t)
  {
    var env, all := StoredEnv(stored, t), ListedIDs(t, stored.issues);
    WholeReach(env);
    ListedDistinct(t, stored.issues);
    forall id | id in all ensures id in Whole(env).visited { ListedExact(t, stored.issues, id); }
    DistinctFits(all, Whole(env).visited);
    NodeLimitWinsIff(stored, t);
  }

  lemma {:induction false} ListedDistinct(t: Traversal, issues: seq<Node>)
    requires DistinctIDs(issues)
    ensures Distinct(ListedIDs(t, issues))
  {
    if issues != [] {
      var last := |issues| - 1;
      ListedDistinct(t, issues[..last]);
      ListedExact(t, issues[..last], issues[last].id);
    }
  }

  /**
   The documented argument holds where its premise does: the whole project is loaded, and every entry
   point is a root.
   */
  lemma RootEntryPointsWin(stored: Stored, t: Traversal)
    requires t.preferNonTerminal && stored.issues == stored.nodes && DistinctIDs(stored.nodes)
    requires forall n | n in stored.issues && Offered(t, n) :: n.id in t.roots
    ensures NodeLimitWins(stored, t)
  {
    var env := StoredEnv(stored, t);
    ByIDExact(stored.nodes);
    forall n | n in stored.issues && Offered(t, n) ensures n.id in ReachAll(env) && !Deferrable(env, n.id) {
      var i :| 0 <= i < |t.roots| && t.roots[i] == n.id;
      assert env.nodes[n.id] == n;
      RootReached(env, i);
    }
    ReachedEntryPointsWin(stored, t);
  }

  const EPIC := Node("epic", Ready, 1, false)
  const FIRST_TASK := Node("first", Ready, 2, true)
  const SECOND_TASK := Node("second", Ready, 3, true)
  const TASKS := [EPIC, FIRST_TASK, SECOND_TASK]
  const BACKLOG := Stored(None, TASKS, [Edge("epic", "first", "contains"), Edge("epic", "second", "contains")], TASKS)
  const TOP_ONLY := Traversal(["epic"], "", 0, Both, ["blocks"], true, true, false, true)

  lemma BacklogNodes()
    ensures StoredEnv(BACKLOG, TOP_ONLY).nodes == map["epic" := EPIC, "first" := FIRST_TASK, "second" := SECOND_TASK]
  {
    assert TASKS[..2][..1] == [EPIC] && TASKS[..2][..1][..0] == [] && TASKS[..2][1] == FIRST_TASK;
    assert NodesByID(TASKS[..2][..1]) == map["epic" := EPIC];
    assert NodesByID(TASKS[..2]) == map["epic" := EPIC, "first" := FIRST_TASK];
  }

  lemma BacklogListed()
    ensures ListedIDs(TOP_ONLY, TASKS) == ["first", "second"]
  {
    assert TASKS[..2][..1] == [EPIC] && TASKS[..2][..1][..0] == [] && TASKS[..2][1] == FIRST_TASK;
    assert ListedIDs(TOP_ONLY, TASKS[..2][..1]) == [];
    assert ListedIDs(TOP_ONLY, TASKS[..2]) == ["first"];
  }

  /** Searching to depth zero from one open root, the graph is that root. */
  lemma RootAlone(env: Env, root: string)
    requires OneRoot(env, root) && Radius(env) == 0 && !Deferrable(env, root)
    ensures Demand(env) == 1 && Whole(env).deferred == []
  {
    OneRootReach(env, root);
    assert ReachAll(env) == {root} && OpenOf(env, ReachAll(env)) == {root};
    WholeReach(env);
    WholeUntruncated(env);
    PassOneReach(env, |env.nodes| + 1);
    var deferred := Whole(env).deferred;
    assert forall id | id in deferred :: id in Known(Whole(env)) && Deferrable(env, id);
    Ordering.EmptyTogether(deferred, []);
  }

  /**
   The premise fails for an epic with two claimable tasks, asked for at depth zero under a budget of
   one: the graph is the epic, all of it, and only the entry points do not fit.
   */
  lemma EntryPointLimitGiven()
    ensures Answer(BACKLOG, TOP_ONLY, 1).reason == Some(EntryPointLimit)
  {
    var env := StoredEnv(BACKLOG, TOP_ONLY);
    BacklogNodes();
    BacklogListed();
    RootAlone(env, "epic");
    NodeFlag(env, 1);
    AnswerEntryPoints(BACKLOG, TOP_ONLY, 1);
  }
}
