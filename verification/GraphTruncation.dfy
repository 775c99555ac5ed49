/**
 What a truncated result means to the caller: exactly when a larger budget would return more, and
 exactly when the flag is raised although none would.
 */
module GraphTruncation {
  import opened IssueGraph
  import opened GraphWellFormed
  import opened GraphBudget
  import opened GraphBuilder
  import opened GraphStorage

  // ---------------------------------------------------------------- the graph without a budget

  /** The first pass with room for every node. */
  function Whole(env: Env): State { PassOne(env, |env.nodes| + 1) }

  /** The finished work the second pass would add to it. */
  function WholeRest(env: Env): seq<string> { Admissible(env, Whole(env).visited, Whole(env).deferred, 0) }

  /** How many nodes the graph has when the budget is no obstacle. */
  function Demand(env: Env): nat { |Whole(env).retained| + |WholeRest(env)| }

  lemma WholeUntruncated(env: Env)
    ensures !Whole(env).truncated
  {
    var one := Whole(env);
    PassOneKeeps(env, |env.nodes| + 1);
    DistinctFits(one.retained, env.nodes.Keys);
    assert |env.nodes.Keys| == |env.nodes|;
  }

  /** Under a budget the first pass is the whole one, or drops a node because the whole one does not fit. */
  lemma PassOneWhole(env: Env, budget: nat)
    ensures PassOne(env, budget).truncated <==> |Whole(env).retained| > budget
    ensures !PassOne(env, budget).truncated ==> PassOne(env, budget) == Whole(env)
    ensures |PassOne(env, budget).retained| <= budget
  {
    var room := |env.nodes| + 1;
    WholeUntruncated(env);
    PassOneCompares(env, budget, budget + 1);
    if budget < room { PassOneCompares(env, budget, room); }
    if budget > room { PassOneCompares(env, room, budget); }
    PassOneCompares(env, room, room + 1);
  }

  /** Everything about a state but the flag. */
  ghost predicate SameButFlag(a: State, b: State) { a.(truncated := b.truncated) == b }

  lemma {:induction false} NoneLeft(env: Env, budget: int, passOne: set<string>, st: State, i: nat)
    requires i <= |st.deferred| && Admissible(env, passOne, st.deferred, i) == []
    ensures SameButFlag(FromDeferred(env, budget, passOne, st, i), st)
    decreases |st.deferred| - i
  {
    if i < |st.deferred| && |st.retained| < budget { NoneLeft(env, budget, passOne, st, i + 1); }
  }

  lemma {:induction false} FromDeferredSame(env: Env, budget: int, larger: int, passOne: set<string>, st: State, i: nat)
    requires i <= |st.deferred| && budget <= larger
    requires |st.retained| + |Admissible(env, passOne, st.deferred, i)| <= budget
    ensures SameButFlag(FromDeferred(env, larger, passOne, st, i), FromDeferred(env, budget, passOne, st, i))
    decreases |st.deferred| - i
  {
    if i < |st.deferred| {
      if |st.retained| >= budget {
        NoneLeft(env, larger, passOne, st, i);
      } else if Attached(env, passOne, st.deferred[i]) {
        AdmitKeepsDeferred(env, st, st.deferred[i]);
        FromDeferredSame(env, budget, larger, passOne, Admit(env, st, st.deferred[i]), i + 1);
      } else {
        FromDeferredSame(env, budget, larger, passOne, st, i + 1);
      }
    }
  }

  lemma EnoughIsEnough(env: Env, budget: nat, larger: nat)
    requires Demand(env) <= budget <= larger
    ensures SameButFlag(Final(env, larger), Final(env, budget))
  {
    PassOneWhole(env, budget);
    PassOneWhole(env, larger);
    var one := Whole(env);
    FromDeferredSame(env, budget, larger, one.visited, one, 0);
  }

  lemma TooLittle(env: Env, budget: nat, larger: nat)
    requires budget < Demand(env) <= larger
    ensures |Final(env, budget).retained| <= budget < |Final(env, larger).retained|
  {
    PassOneWhole(env, budget);
    PassOneWhole(env, larger);
    FinalRetains(env, budget);
    FinalRetains(env, larger);
  }

  /** The flag of the node budget, in terms of the graph without one. */
  lemma NodeFlag(env: Env, budget: nat)
    ensures Final(env, budget).truncated
            <==> Demand(env) > budget
                 || (Demand(env) == budget && LastUnattached(env, Whole(env).visited, Whole(env).deferred))
  {
    PassOneWhole(env, budget);
    TruncationFlag(env, budget);
    if PassOne(env, budget).truncated { assert Demand(env) > budget; }
  }

  // ---------------------------------------------------------------- the result

  /** A result without its explanation. */
  function Content(r: GraphResult): GraphResult { r.(reason := None) }

  ghost predicate Better(stored: Stored, t: Traversal, budget: nat, larger: nat) {
    larger > budget && Content(Answer(stored, t, larger)) != Content(Answer(stored, t, budget))
  }

  /** Some larger budget returns other nodes, edges or entry points. */
  ghost predicate LargerHelps(stored: Stored, t: Traversal, budget: nat) {
    exists larger :: Better(stored, t, budget, larger)
  }

  lemma SameNodes(stored: Stored, t: Traversal, budget: nat, larger: nat)
    requires Demand(StoredEnv(stored, t)) <= budget <= larger
    ensures var r, s := Answer(stored, t, budget), Answer(stored, t, larger);
            s == r.(entryPoints := s.entryPoints, reason := s.reason)
  {
    EnoughIsEnough(StoredEnv(stored, t), budget, larger);
  }

  lemma MoreNodes(stored: Stored, t: Traversal, budget: nat)
    requires budget < Demand(StoredEnv(stored, t))
    ensures LargerHelps(stored, t, budget)
  {
    var env := StoredEnv(stored, t);
    var larger := Demand(env);
    TooLittle(env, budget, larger);
    FinalWellFormed(env, budget);
    FinalWellFormed(env, larger);
    assert |Answer(stored, t, larger).nodes| > |Answer(stored, t, budget).nodes|;
    assert Better(stored, t, budget, larger);
  }

  /** With all the nodes there, one place more lists one entry point more, if there is one. */
  lemma MoreEntryPoints(stored: Stored, t: Traversal, budget: nat)
    requires budget >= 1 && Answer(stored, t, budget).entryPointCount > budget
    ensures LargerHelps(stored, t, budget)
  {
    AnswerEntryPoints(stored, t, budget);
    AnswerEntryPoints(stored, t, budget + 1);
    assert |Answer(stored, t, budget + 1).entryPoints| > |Answer(stored, t, budget).entryPoints|;
    assert Better(stored, t, budget, budget + 1);
  }

  lemma NothingMore(stored: Stored, t: Traversal, budget: nat, larger: nat)
    requires 1 <= budget < larger && Demand(StoredEnv(stored, t)) <= budget
    requires Answer(stored, t, budget).entryPointCount <= budget
    ensures Content(Answer(stored, t, larger)) == Content(Answer(stored, t, budget))
  {
    SameNodes(stored, t, budget, larger);
    AnswerEntryPoints(stored, t, budget);
    AnswerEntryPoints(stored, t, larger);
    if !t.preferNonTerminal {
      RootedEntryPoints(stored, t, budget);
      RootedEntryPoints(stored, t, larger);
    }
  }

  lemma RootedEntryPoints(stored: Stored, t: Traversal, budget: nat)
    requires budget >= 1 && !t.preferNonTerminal
    ensures Answer(stored, t, budget).entryPoints == ClaimableIDs(Answer(stored, t, budget).nodes)
  {
    ClaimableShort(Answer(stored, t, budget).nodes);
    ResultWellFormed(Supply(stored, t, budget), t, budget);
  }

  /** A larger budget helps exactly when the graph wants more nodes, or more entry points are counted than fit. */
  lemma LargerHelpsIff(stored: Stored, t: Traversal, budget: nat)
    requires budget >= 1
    ensures LargerHelps(stored, t, budget)
            <==> Demand(StoredEnv(stored, t)) > budget || Answer(stored, t, budget).entryPointCount > budget
  {
    if Demand(StoredEnv(stored, t)) > budget {
      MoreNodes(stored, t, budget);
    } else if Answer(stored, t, budget).entryPointCount > budget {
      MoreEntryPoints(stored, t, budget);
    } else if LargerHelps(stored, t, budget) {
      var larger :| Better(stored, t, budget, larger);
      NothingMore(stored, t, budget, larger);
    }
  }

  /**
   The documented meaning of `truncated`, for every project, traversal and budget. The flag is never
   missing. It is raised without cause exactly when the whole graph fills the budget to the last place,
   the last finished node met is attached to nothing, and all entry points fit: for one project and
   traversal, under one budget at most.
   */
  lemma TruncatedMeaning(stored: Stored, t: Traversal, budget: nat)
    requires budget >= 1
    ensures var env := StoredEnv(stored, t);
            var r := Answer(stored, t, budget);
            && (LargerHelps(stored, t, budget) ==> r.Truncated())
            && (r.Truncated() && !LargerHelps(stored, t, budget)
                <==> Demand(env) == budget && LastUnattached(env, Whole(env).visited, Whole(env).deferred)
                     && r.entryPointCount <= budget)
  {
    LargerHelpsIff(stored, t, budget);
    NodeFlag(StoredEnv(stored, t), budget);
  }

  /** An answer that reports no truncation is the answer to every larger budget, though storage lists more for it. */
  lemma UntruncatedAnswerIsStable(stored: Stored, t: Traversal, budget: nat, larger: nat)
    requires 1 <= budget <= larger && !Answer(stored, t, budget).Truncated()
    ensures Answer(stored, t, larger) == Answer(stored, t, budget)
  {
    AnswerEntryPoints(stored, t, budget);
    assert Supply(stored, t, larger) == Supply(stored, t, budget);
    UntruncatedIsStable(Supply(stored, t, budget), t, budget, larger);
  }

  // ---------------------------------------------------------------- the input that shows it

  const TWO_ISSUES := Stored(None, [OPEN_ISSUE, DONE_ISSUE], [], [OPEN_ISSUE, DONE_ISSUE])

  lemma IsolatedEnv()
    ensures StoredEnv(TWO_ISSUES, PLANNING) == ISOLATED
  {
    var nodes := TWO_ISSUES.nodes;
    assert nodes[..1] == [OPEN_ISSUE] && nodes[..1][..0] == [];
    assert NodesByID(nodes[..1]) == map["open" := OPEN_ISSUE];
  }

  lemma IsolatedEntryPoints()
    ensures ListedIDs(PLANNING, TWO_ISSUES.issues) == ["open"]
  {
    var issues := TWO_ISSUES.issues;
    assert issues[..1] == [OPEN_ISSUE] && issues[..1][..0] == [];
    assert ListedIDs(PLANNING, issues[..1]) == ["open"];
  }

  /** One open issue and one isolated finished one under a budget of one: flagged, and no budget returns more. */
  lemma TruncatedWithoutCause()
    ensures Answer(TWO_ISSUES, PLANNING, 1).Truncated() && !LargerHelps(TWO_ISSUES, PLANNING, 1)
  {
    IsolatedEnv();
    IsolatedPass();
    IsolatedRest();
    PassOneWhole(ISOLATED, 1);
    FlagWithoutCause();
    LargerHelpsIff(TWO_ISSUES, PLANNING, 1);
    IsolatedEntryPoints();
    AnswerEntryPoints(TWO_ISSUES, PLANNING, 1);
  }
}
