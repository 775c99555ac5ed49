/**
 The node budget: an untruncated result is what every larger budget returns, and exactly when a
 truncated one is not.
 */
module GraphBudget {
  import opened IssueGraph
  import opened GraphWellFormed

  // ---------------------------------------------------------------- one step under two budgets

  /**
   How a step under a budget compares with the step under a larger one: identical if it did not
   truncate; if it did, the larger budget retains more than the smaller one allows.
   */
  ghost predicate Compares(before: State, small: State, large: State, budget: int) {
    && (before.truncated ==> small.truncated)
    && |before.retained| <= |small.retained|
    && |before.retained| <= |large.retained|
    && (!small.truncated ==> large == small)
    && (small.truncated && !before.truncated ==> |large.retained| > budget)
  }

  lemma AddNodeCompares(env: Env, budget: int, larger: int, st: State, id: string, depth: nat, root: bool)
    requires budget < larger && |st.retained| <= budget
    ensures Compares(st, AddNode(env, budget, st, id, depth, root).0,
                     AddNode(env, larger, st, id, depth, root).0, budget)
    ensures !AddNode(env, budget, st, id, depth, root).0.truncated ==>
              AddNode(env, larger, st, id, depth, root) == AddNode(env, budget, st, id, depth, root)
    ensures |AddNode(env, budget, st, id, depth, root).0.retained| <= budget
  {
  }

  /** No step forgets a retained node. */
  lemma AddNodeGrows(env: Env, budget: int, st: State, id: string, depth: nat, root: bool)
    ensures |AddNode(env, budget, st, id, depth, root).0.retained| >= |st.retained|
  {
  }

  lemma VisitGrows(env: Env, budget: int, st: State, current: Queued, n: Neighbor)
    ensures |Visit(env, budget, st, current, n).retained| >= |st.retained|
  {
    AddNodeGrows(env, budget, st, n.id, current.depth + 1, false);
  }

  lemma {:induction false} VisitAllGrows(env: Env, budget: int, st: State, current: Queued, ns: seq<Neighbor>)
    ensures |VisitAll(env, budget, st, current, ns).retained| >= |st.retained|
    decreases |ns|
  {
    if ns != [] {
      VisitGrows(env, budget, st, current, ns[0]);
      VisitAllGrows(env, budget, Visit(env, budget, st, current, ns[0]), current, ns[1..]);
    }
  }

  lemma {:induction false} DrainGrows(env: Env, budget: int, st: State)
    ensures |Drain(env, budget, st).retained| >= |st.retained|
    decreases Work(env, st)
  {
    if st.queue != [] {
      StepWork(env, budget, st);
      VisitAllGrows(env, budget, st.(queue := st.queue[1..]), st.queue[0], GraphNeighbors(env, st.queue[0].id));
      DrainGrows(env, budget, Step(env, budget, st));
    }
  }

  lemma RootStepGrows(env: Env, budget: int, st: State, root: string)
    ensures |RootStep(env, budget, st, root).0.retained| >= |st.retained|
  {
    AddNodeGrows(env, budget, st, root, 0, root == env.t.explicitRoot);
    DrainGrows(env, budget, AddNode(env, budget, st, root, 0, root == env.t.explicitRoot).0);
  }

  lemma {:induction false} FromRootsGrows(env: Env, budget: int, st: State, i: nat)
    ensures |FromRoots(env, budget, st, i).retained| >= |st.retained|
    decreases |env.t.roots| - i
  {
    if i < |env.t.roots| {
      RootStepGrows(env, budget, st, env.t.roots[i]);
      FromRootsGrows(env, budget, RootStep(env, budget, st, env.t.roots[i]).0, i + 1);
    }
  }

  lemma VisitCompares(env: Env, budget: int, larger: int, st: State, current: Queued, n: Neighbor)
    requires budget < larger && |st.retained| <= budget
    ensures Compares(st, Visit(env, budget, st, current, n), Visit(env, larger, st, current, n), budget)
    ensures |Visit(env, budget, st, current, n).retained| <= budget
  {
    AddNodeCompares(env, budget, larger, st, n.id, current.depth + 1, false);
    VisitGrows(env, budget, st, current, n);
    VisitGrows(env, larger, st, current, n);
  }

  lemma {:induction false} VisitAllTruncated(env: Env, budget: int, st: State, current: Queued, ns: seq<Neighbor>)
    requires st.truncated
    ensures VisitAll(env, budget, st, current, ns).truncated
    decreases |ns|
  {
    if ns != [] { VisitAllTruncated(env, budget, Visit(env, budget, st, current, ns[0]), current, ns[1..]); }
  }

  lemma {:induction false} VisitAllCompares(
    env: Env, budget: int, larger: int, st: State, current: Queued, ns: seq<Neighbor>)
    requires budget < larger && |st.retained| <= budget
    ensures Compares(st, VisitAll(env, budget, st, current, ns), VisitAll(env, larger, st, current, ns), budget)
    ensures |VisitAll(env, budget, st, current, ns).retained| <= budget
    decreases |ns|
  {
    if ns != [] {
      VisitCompares(env, budget, larger, st, current, ns[0]);
      var small, large := Visit(env, budget, st, current, ns[0]), Visit(env, larger, st, current, ns[0]);
      VisitAllCompares(env, budget, larger, small, current, ns[1..]);
      VisitAllGrows(env, larger, large, current, ns[1..]);
      if small.truncated { VisitAllTruncated(env, budget, small, current, ns[1..]); }
    }
  }

  lemma StepCompares(env: Env, budget: int, larger: int, st: State)
    requires budget < larger && |st.retained| <= budget && st.queue != []
    ensures Compares(st, Step(env, budget, st), Step(env, larger, st), budget)
    ensures |Step(env, budget, st).retained| <= budget
  {
    VisitAllCompares(env, budget, larger, st.(queue := st.queue[1..]), st.queue[0],
                     GraphNeighbors(env, st.queue[0].id));
  }

  lemma {:induction false} DrainTruncated(env: Env, budget: int, st: State)
    requires st.truncated
    ensures Drain(env, budget, st).truncated
    decreases Work(env, st)
  {
    if st.queue != [] {
      StepWork(env, budget, st);
      VisitAllTruncated(env, budget, st.(queue := st.queue[1..]), st.queue[0],
                        GraphNeighbors(env, st.queue[0].id));
      DrainTruncated(env, budget, Step(env, budget, st));
    }
  }

  lemma {:induction false} DrainCompares(env: Env, budget: int, larger: int, st: State)
    requires budget < larger && |st.retained| <= budget
    ensures Compares(st, Drain(env, budget, st), Drain(env, larger, st), budget)
    ensures |Drain(env, budget, st).retained| <= budget
    decreases Work(env, st)
  {
    if st.queue != [] {
      StepWork(env, budget, st);
      StepCompares(env, budget, larger, st);
      var small, large := Step(env, budget, st), Step(env, larger, st);
      DrainCompares(env, budget, larger, small);
      DrainGrows(env, larger, large);
      if small.truncated { DrainTruncated(env, budget, small); }
    }
  }

  lemma RootStepCompares(env: Env, budget: int, larger: int, st: State, root: string)
    requires budget < larger && Invariant(env, budget, st) && |st.retained| <= budget
    ensures Compares(st, RootStep(env, budget, st, root).0, RootStep(env, larger, st, root).0, budget)
    ensures |RootStep(env, budget, st, root).0.retained| <= budget
    ensures !RootStep(env, budget, st, root).0.truncated ==>
              RootStep(env, larger, st, root) == RootStep(env, budget, st, root)
              && !RootStep(env, budget, st, root).1
  {
    var explicit := root == env.t.explicitRoot;
    AddNodeCompares(env, budget, larger, st, root, 0, explicit);
    AddNodeKeeps(env, budget, st, root, 0, explicit);
    var small, large := AddNode(env, budget, st, root, 0, explicit).0, AddNode(env, larger, st, root, 0, explicit).0;
    DrainCompares(env, budget, larger, small);
    DrainGrows(env, larger, large);
    if small.truncated { DrainTruncated(env, budget, small); }
    RootStepGrows(env, budget, st, root);
    RootStepGrows(env, larger, st, root);
  }

  lemma {:induction false} FromRootsCompares(env: Env, budget: int, larger: int, st: State, i: nat)
    requires budget < larger && Invariant(env, budget, st) && |st.retained| <= budget
    ensures Compares(st, FromRoots(env, budget, st, i), FromRoots(env, larger, st, i), budget)
    ensures |FromRoots(env, budget, st, i).retained| <= budget
    decreases |env.t.roots| - i
  {
    if i < |env.t.roots| {
      var root := env.t.roots[i];
      RootStepCompares(env, budget, larger, st, root);
      RootStepKeeps(env, budget, st, root);
      var small, large := RootStep(env, budget, st, root).0, RootStep(env, larger, st, root).0;
      FromRootsCompares(env, budget, larger, small, i + 1);
      FromRootsGrows(env, larger, large, i + 1);
      FromRootsKeeps(env, budget, small, i + 1);
    }
  }

  /** The first pass: untruncated runs are stable, truncated ones lose a node to the budget. */
  lemma PassOneCompares(env: Env, budget: nat, larger: int)
    requires budget < larger
    ensures |PassOne(env, budget).retained| <= budget
    ensures !PassOne(env, budget).truncated ==> PassOne(env, larger) == PassOne(env, budget)
    ensures PassOne(env, budget).truncated ==> |PassOne(env, larger).retained| > budget
  {
    FromRootsCompares(env, budget, larger, START, 0);
  }

  // ---------------------------------------------------------------- the second pass under two budgets

  /** The deferred nodes from position `i` on that an edge attaches to the first pass. */
  function Admissible(env: Env, passOne: set<string>, deferred: seq<string>, i: nat): seq<string>
    decreases |deferred| - i
  {
    if i >= |deferred| then []
    else
      (if Attached(env, passOne, deferred[i]) then [deferred[i]] else [])
      + Admissible(env, passOne, deferred, i + 1)
  }

  /** The second pass retains the admissible nodes in order, as many as the budget has room for. */
  lemma {:induction false} FromDeferredRetains(env: Env, budget: int, passOne: set<string>, st: State, i: nat)
    requires |st.retained| <= budget
    ensures var rest := Admissible(env, passOne, st.deferred, i);
            var room := budget - |st.retained|;
            FromDeferred(env, budget, passOne, st, i).retained
            == st.retained + (if |rest| <= room then rest else rest[..room])
    decreases |st.deferred| - i
  {
    var rest := Admissible(env, passOne, st.deferred, i);
    var room := budget - |st.retained|;
    if i >= |st.deferred| || |st.retained| >= budget {
      assert (if |rest| <= room then rest else rest[..room]) == [];
    } else if Attached(env, passOne, st.deferred[i]) {
      AdmitKeepsDeferred(env, st, st.deferred[i]);
      FromDeferredRetains(env, budget, passOne, Admit(env, st, st.deferred[i]), i + 1);
      var tail := Admissible(env, passOne, st.deferred, i + 1);
      FirstOf(st.retained, st.deferred[i], tail, room);
    } else {
      FromDeferredRetains(env, budget, passOne, st, i + 1);
    }
  }

  lemma FirstOf(kept: seq<string>, x: string, tail: seq<string>, room: int)
    requires room >= 1
    ensures var rest := [x] + tail;
            kept + (if |rest| <= room then rest else rest[..room])
            == (kept + [x]) + (if |tail| <= room - 1 then tail else tail[..room - 1])
  {
  }

  lemma {:induction false} FromDeferredStable(
    env: Env, budget: int, larger: int, passOne: set<string>, st: State, i: nat)
    requires budget <= larger && !FromDeferred(env, budget, passOne, st, i).truncated
    ensures FromDeferred(env, larger, passOne, st, i) == FromDeferred(env, budget, passOne, st, i)
    decreases |st.deferred| - i
  {
    if i < |st.deferred| && |st.retained| < budget {
      if Attached(env, passOne, st.deferred[i]) {
        AdmitKeepsDeferred(env, st, st.deferred[i]);
        FromDeferredStable(env, budget, larger, passOne, Admit(env, st, st.deferred[i]), i + 1);
      } else {
        FromDeferredStable(env, budget, larger, passOne, st, i + 1);
      }
    }
  }

  lemma {:induction false} FromDeferredTruncated(env: Env, budget: int, passOne: set<string>, st: State, i: nat)
    requires st.truncated
    ensures FromDeferred(env, budget, passOne, st, i).truncated
    decreases |st.deferred| - i
  {
    if i < |st.deferred| && |st.retained| < budget {
      AdmitKeepsDeferred(env, st, st.deferred[i]);
      if Attached(env, passOne, st.deferred[i]) {
        FromDeferredTruncated(env, budget, passOne, Admit(env, st, st.deferred[i]), i + 1);
      } else {
        FromDeferredTruncated(env, budget, passOne, st, i + 1);
      }
    }
  }

  // ---------------------------------------------------------------- main results

  lemma FinalStable(env: Env, budget: nat, larger: int)
    requires budget <= larger && !Final(env, budget).truncated
    ensures Final(env, larger) == Final(env, budget)
  {
    var one := PassOne(env, budget);
    if one.truncated { FromDeferredTruncated(env, budget, one.visited, one, 0); }
    if budget < larger {
      PassOneCompares(env, budget, larger);
      FromDeferredStable(env, budget, larger, one.visited, one, 0);
    }
  }

  /**
   A result that does not report truncation is identical under every larger budget: both passes, the
   edges, the entry points and the summary.
   */
  lemma UntruncatedIsStable(snapshot: Snapshot, t: Traversal, budget: nat, larger: int)
    requires 1 <= budget <= larger
    requires EntryPointsSupplied(snapshot, t, budget) && EntryPointsSupplied(snapshot, t, larger)
    requires !Build(snapshot, t, budget).Truncated()
    ensures Build(snapshot, t, larger) == Build(snapshot, t, budget)
  {
    FinalStable(MakeEnv(snapshot, t), budget, larger);
  }

  /**
   When some larger budget would keep other nodes: exactly when the first pass dropped a node, or
   more deferred nodes are attached to what it retained than there was room for.
   */
  ghost predicate BudgetBites(env: Env, budget: nat) {
    var one := PassOne(env, budget);
    one.truncated || |one.retained| + |Admissible(env, one.visited, one.deferred, 0)| > budget
  }

  lemma FinalRetains(env: Env, budget: nat)
    ensures var one := PassOne(env, budget);
            var rest := Admissible(env, one.visited, one.deferred, 0);
            var room := budget - |one.retained|;
            room >= 0 && Final(env, budget).retained
                         == one.retained + (if |rest| <= room then rest else rest[..room])
  {
    PassOneCompares(env, budget, budget + 1);
    var one := PassOne(env, budget);
    FromDeferredRetains(env, budget, one.visited, one, 0);
  }

  lemma LargerBudgetMatters(env: Env, budget: nat)
    ensures BudgetBites(env, budget)
            <==> exists larger: nat :: larger >= budget && Final(env, larger).retained != Final(env, budget).retained
  {
    var one := PassOne(env, budget);
    FinalRetains(env, budget);
    if BudgetBites(env, budget) {
      PassOneCompares(env, budget, budget + 1);
      FinalRetains(env, budget + 1);
      assert |Final(env, budget + 1).retained| > |Final(env, budget).retained|;
    } else {
      forall larger: nat | larger >= budget ensures Final(env, larger).retained == Final(env, budget).retained {
        if larger > budget {
          PassOneCompares(env, budget, larger);
          FinalRetains(env, larger);
        }
      }
    }
  }

  // ---------------------------------------------------------------- the truncation flag

  predicate LastUnattached(env: Env, passOne: set<string>, deferred: seq<string>) {
    deferred != [] && !Attached(env, passOne, deferred[|deferred| - 1])
  }

  lemma {:induction false} FlagFrom(env: Env, budget: int, passOne: set<string>, st: State, i: nat)
    requires !st.truncated && |st.retained| <= budget
    ensures var total := |st.retained| + |Admissible(env, passOne, st.deferred, i)|;
            FromDeferred(env, budget, passOne, st, i).truncated
            <==> total > budget
                 || (total == budget && i < |st.deferred| && LastUnattached(env, passOne, st.deferred))
    decreases |st.deferred| - i
  {
    if i < |st.deferred| {
      var tail := Admissible(env, passOne, st.deferred, i + 1);
      if |st.retained| >= budget {
        if Admissible(env, passOne, st.deferred, i) == [] { NoneAdmissible(env, passOne, st.deferred, i); }
      } else if Attached(env, passOne, st.deferred[i]) {
        AdmitKeepsDeferred(env, st, st.deferred[i]);
        FlagFrom(env, budget, passOne, Admit(env, st, st.deferred[i]), i + 1);
        assert |Admissible(env, passOne, st.deferred, i)| == 1 + |tail|;
      } else {
        FlagFrom(env, budget, passOne, st, i + 1);
      }
    }
  }

  lemma {:induction false} NoneAdmissible(env: Env, passOne: set<string>, deferred: seq<string>, i: nat)
    requires i < |deferred| && Admissible(env, passOne, deferred, i) == []
    ensures LastUnattached(env, passOne, deferred)
    decreases |deferred| - i
  {
    if i + 1 < |deferred| { NoneAdmissible(env, passOne, deferred, i + 1); }
  }

  /**
   The node-limit flag never misses a larger budget that would keep more. It is raised without one
   exactly when the first pass dropped nothing, the attached deferred nodes fill the budget to the
   last place, and the last deferred node is attached to nothing.
   */
  lemma TruncationFlag(env: Env, budget: nat)
    ensures BudgetBites(env, budget) ==> Final(env, budget).truncated
    ensures var one := PassOne(env, budget);
            Final(env, budget).truncated && !BudgetBites(env, budget)
            <==> !one.truncated
                 && |one.retained| + |Admissible(env, one.visited, one.deferred, 0)| == budget
                 && LastUnattached(env, one.visited, one.deferred)
  {
    PassOneCompares(env, budget, budget + 1);
    var one := PassOne(env, budget);
    if one.truncated {
      FromDeferredTruncated(env, budget, one.visited, one, 0);
    } else {
      FlagFrom(env, budget, one.visited, one, 0);
    }
  }

  const OPEN_ISSUE := Node("open", Ready, 1, true)
  const DONE_ISSUE := Node("done", Done, 2, false)
  const PLANNING := Traversal(["open", "done"], "", 3, Both, ["blocks"], true, true, false, true)
  const ISOLATED := Env(map["open" := OPEN_ISSUE, "done" := DONE_ISSUE], [], PLANNING)

  /** The first pass over one open and one isolated finished issue, with room for one node. */
  lemma IsolatedPass()
    ensures var one := PassOne(ISOLATED, 1);
            !one.truncated && one.retained == ["open"] && one.visited == {"open"} && one.deferred == ["done"]
  {
    var env := ISOLATED;
    var first := START.(visited := {} + {"open"}, retained := [] + ["open"], queue := [] + [Queued("open", 0)]);
    assert AddNode(env, 1, START, "open", 0, false) == (first, true);
    var one := first.(queue := []);
    DrainIsolated(env, first, Queued("open", 0));
    assert !("open" == PLANNING.explicitRoot) && AllowedNode(env, "open", false);
    assert RootStep(env, 1, START, "open") == (one, false);
    var waiting := one.(deferredSeen := {} + {"done"}, deferred := [] + ["done"], queue := [] + [Queued("done", 0)]);
    assert AddNode(env, 1, one, "done", 0, false) == (waiting, false);
    DrainIsolated(env, waiting, Queued("done", 0));
    var last := waiting.(queue := []);
    assert !("done" == PLANNING.explicitRoot) && !last.budgetExhausted;
    assert RootStep(env, 1, one, "done") == (last, false);
    assert FromRoots(env, 1, last, 2) == last;
    assert FromRoots(env, 1, one, 1) == last;
    assert PassOne(env, 1) == last;
  }

  lemma IsolatedRest()
    ensures Admissible(ISOLATED, {"open"}, ["done"], 0) == [] && !Attached(ISOLATED, {"open"}, "done")
  {
    assert !Attached(ISOLATED, {"open"}, "done");
    assert Admissible(ISOLATED, {"open"}, ["done"], 1) == [];
  }

  /**
   The comment on the flag ("a budget dropped something a larger budget would have kept") is not
   exact: one open issue and one isolated finished issue under a budget of one.
   */
  lemma FlagWithoutCause()
    ensures Final(ISOLATED, 1).truncated
    ensures forall larger: nat | larger >= 1 :: Final(ISOLATED, larger).retained == Final(ISOLATED, 1).retained
  {
    IsolatedPass();
    IsolatedRest();
    TruncationFlag(ISOLATED, 1);
    LargerBudgetMatters(ISOLATED, 1);
  }

  lemma DrainIsolated(env: Env, st: State, only: Queued)
    requires st.queue == [only] && env.edges == []
    ensures Drain(env, 1, st) == st.(queue := [])
  {
    assert GraphNeighbors(env, only.id) == [];
    assert Step(env, 1, st) == st.(queue := []);
    StepWork(env, 1, st);
  }
}
