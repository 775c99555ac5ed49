/**
 What the whole graph holds: for one root, exactly what distance says; for several, exactly what
 searches that avoid each other reach, and when that is less than what lies near some root.
 */
module GraphReach {
  import opened IssueGraph
  import opened GraphWellFormed
  import opened GraphDistance
  import opened GraphBudget

  // ---------------------------------------------------------------- root after root

  /** What the first `i` roots reach: each search avoids what the earlier ones reached. */
  ghost function Reach(env: Env, i: nat): set<string>
    requires i <= |env.t.roots|
  {
    if i == 0 then {}
    else Reach(env, i - 1) + Reached(env, Reach(env, i - 1), env.t.roots[i - 1])
  }

  /** What one more root adds. */
  ghost function Reached(env: Env, known: set<string>, root: string): set<string> {
    if root in known || !Startable(env, root) then {} else Ball(env, known, root, Radius(env))
  }

  lemma KnownRoot(env: Env, budget: int, from: State, root: string)
    requires Invariant(env, budget, from) && from.queue == [] && root in Known(from)
    ensures RootStep(env, budget, from, root).0 == from
    ensures RootStep(env, budget, from, root).1 ==> from.truncated
  {
  }

  lemma NewRoot(env: Env, budget: int, from: State, root: string)
    requires Invariant(env, budget, from) && from.queue == [] && root !in Known(from) && Startable(env, root)
    ensures var (next, stop) := RootStep(env, budget, from, root);
            && Known(from) <= Known(next) <= Known(from) + Ball(env, Known(from), root, Radius(env))
            && (stop ==> next.truncated)
            && (!stop ==> next.queue == [])
            && (!next.truncated ==> Known(next) == Known(from) + Ball(env, Known(from), root, Radius(env)))
  {
    var ball := BallsAround(env, Known(from), root);
    BallsAroundRoot(env, Known(from), root);
    assert ball(0) == {root} && ball(0) <= ball(Radius(env));
    RootMet(env, ball, budget, from, root);
    var st := AddNode(env, budget, from, root, 0, root == env.t.explicitRoot).0;
    if root in Known(st) {
      RootDrained(env, ball, budget, from, st);
      DrainKeeps(env, budget, st);
    }
  }

  lemma RootDrained(env: Env, ball: Balls, budget: int, from: State, st: State)
    requires IsBalls(env, Known(from), ball) && Invariant(env, budget, from)
    requires Searching(env, ball, budget, from, st, 0, {})
    ensures var drained := Drain(env, budget, st);
            && Known(from) <= Known(drained) <= Known(from) + ball(Radius(env))
            && (!drained.truncated ==> Known(drained) == Known(from) + ball(Radius(env)))
  {
    var d := DrainSearching(env, ball, budget, from, st, 0);
    var drained := Drain(env, budget, st);
    assert Extends(from, drained) && Known(drained) == Known(from) + Found(from, drained);
    if !drained.truncated { Exhausted(env, ball, from, drained, d, Radius(env)); }
  }

  lemma RootSearched(env: Env, budget: int, from: State, root: string)
    requires Invariant(env, budget, from) && from.queue == []
    ensures var (next, stop) := RootStep(env, budget, from, root);
            && Invariant(env, budget, next) && (from.truncated ==> next.truncated)
            && Known(next) <= Known(from) + Reached(env, Known(from), root)
            && (stop ==> next.truncated)
            && (!stop ==> next.queue == [])
            && (!next.truncated ==> Known(next) == Known(from) + Reached(env, Known(from), root))
  {
    RootStepKeeps(env, budget, from, root);
    if root in Known(from) {
      KnownRoot(env, budget, from, root);
    } else if Startable(env, root) {
      NewRoot(env, budget, from, root);
    }
  }

  /**
   Nearest first, root by root, under any budget: among what one root's search retains, nodes come in
   order of distance from that root, and no open node it drops is nearer than one it keeps.
   */
  lemma RootNearestFirst(env: Env, budget: int, from: State, root: string)
    requires Invariant(env, budget, from) && from.queue == [] && root !in Known(from) && Startable(env, root)
    ensures var next, ball := RootStep(env, budget, from, root).0, BallsAround(env, Known(from), root);
            && from.retained <= next.retained && OrderedByDistance(ball, Fresh(from, next))
            && forall k: nat :: NearestAt(env, ball, next.visited - from.visited, k)
  {
    var ball := BallsAround(env, Known(from), root);
    BallsAroundRoot(env, Known(from), root);
    assert ball(0) == {root};
    RootMet(env, ball, budget, from, root);
    var st := AddNode(env, budget, from, root, 0, root == env.t.explicitRoot).0;
    if root in Known(st) {
      var d := DrainSearching(env, ball, budget, from, st, 0);
      InOrder(env, ball, from, st);
      InOrder(env, ball, from, Drain(env, budget, st));
    } else {
      assert Fresh(from, st) == [];
    }
  }

  lemma InOrder(env: Env, ball: Balls, from: State, st: State)
    requires Sound(env, ball, from, st)
    ensures from.retained <= st.retained && OrderedByDistance(ball, Fresh(from, st))
    ensures forall k: nat :: NearestAt(env, ball, st.visited - from.visited, k)
  {
  }

  /** Within the depth limit of some root the search may start from. */
  ghost predicate NearSomeRoot(env: Env, n: string) {
    exists r :: r in env.t.roots && NearRoot(env, r, n)
  }

  ghost predicate NearRoot(env: Env, root: string, n: string) {
    Startable(env, root) && n in Ball(env, {}, root, Radius(env))
  }

  lemma {:induction false} BallShrinks(env: Env, avoid: set<string>, root: string, k: nat)
    ensures Ball(env, avoid, root, k) <= Ball(env, {}, root, k)
  {
    if k > 0 { BallShrinks(env, avoid, root, k - 1); }
  }

  lemma ReachedNear(env: Env, known: set<string>, root: string)
    requires root in env.t.roots
    ensures forall n | n in Reached(env, known, root) :: NearSomeRoot(env, n)
  {
    BallShrinks(env, known, root, Radius(env));
    assert forall n | n in Reached(env, known, root) :: NearRoot(env, root, n);
  }

  lemma {:induction false} FromRootsReach(env: Env, budget: int, st: State, i: nat)
    requires Invariant(env, budget, st) && st.queue == [] && i <= |env.t.roots|
    requires forall n | n in Known(st) :: NearSomeRoot(env, n)
    requires !st.truncated ==> Known(st) == Reach(env, i)
    ensures var one := FromRoots(env, budget, st, i);
            && Invariant(env, budget, one)
            && (forall n | n in Known(one) :: NearSomeRoot(env, n))
            && (!one.truncated ==> Known(one) == Reach(env, |env.t.roots|))
    decreases |env.t.roots| - i
  {
    if i < |env.t.roots| {
      var root := env.t.roots[i];
      var (next, stop) := RootStep(env, budget, st, root);
      RootSearched(env, budget, st, root);
      ReachedNear(env, Known(st), root);
      if !stop { FromRootsReach(env, budget, next, i + 1); }
    }
  }

  /** What all roots together reach. */
  ghost function ReachAll(env: Env): set<string> { Reach(env, |env.t.roots|) }

  lemma PassOneReach(env: Env, budget: int)
    ensures var one := PassOne(env, budget);
            && Invariant(env, budget, one)
            && (forall n | n in Known(one) :: NearSomeRoot(env, n))
            && (!one.truncated ==> Known(one) == ReachAll(env))
  {
    FromRootsReach(env, budget, START, 0);
  }

  // ---------------------------------------------------------------- what the graph holds

  lemma {:induction false} AdmissibleExact(env: Env, passOne: set<string>, deferred: seq<string>, i: nat, id: string)
    requires i <= |deferred|
    ensures id in Admissible(env, passOne, deferred, i) <==> id in deferred[i..] && Attached(env, passOne, id)
    decreases |deferred| - i
  {
    if i < |deferred| {
      AdmissibleExact(env, passOne, deferred, i + 1, id);
      assert deferred[i..] == [deferred[i]] + deferred[i + 1..];
    }
  }

  lemma RetainedDeferred(env: Env, budget: nat, n: string)
    ensures n in Final(env, budget).retained ==>
              n in PassOne(env, budget).retained || n in PassOne(env, budget).deferred
  {
    var one := PassOne(env, budget);
    FinalRetains(env, budget);
    AdmissibleExact(env, one.visited, one.deferred, 0, n);
    assert one.deferred[0..] == one.deferred;
  }

  /**
   For all inputs: every node of the graph has a witness, a path of at most `depth` hops from some
   root, through open work and through finished work that waits for the second pass.
   */
  lemma EveryNodeHasWitness(env: Env, budget: nat, n: string)
    requires n in Final(env, budget).retained
    ensures exists r, p :: r in env.t.roots && Startable(env, r) && PathTo(env, {}, r, n, p) && |p| <= Radius(env) + 1
  {
    PassOneReach(env, budget);
    RetainedDeferred(env, budget, n);
    assert n in Known(PassOne(env, budget));
    var r :| r in env.t.roots && NearRoot(env, r, n);
    var p := BallHasPath(env, {}, r, Radius(env), n);
  }

  /** The open nodes of a set. */
  function OpenOf(env: Env, nodes: set<string>): set<string> { set n | n in nodes && !Deferrable(env, n) }

  /** Of what was met, the graph keeps all open work, and the includable finished work attached to it. */
  ghost predicate Kept(env: Env, met: set<string>, n: string) {
    n in met && (Deferrable(env, n) ==> AllowedNode(env, n, false) && Attached(env, OpenOf(env, met), n))
  }

  lemma UntruncatedPassOne(env: Env, budget: nat)
    requires !Final(env, budget).truncated
    ensures var one := PassOne(env, budget);
            && !one.truncated
            && forall n :: n in Final(env, budget).retained
                           <==> n in one.retained || (n in one.deferred && Attached(env, one.visited, n))
  {
    var one := PassOne(env, budget);
    TruncationFlag(env, budget);
    FinalRetains(env, budget);
    forall n ensures n in Admissible(env, one.visited, one.deferred, 0)
                     <==> n in one.deferred && Attached(env, one.visited, n) {
      AdmissibleExact(env, one.visited, one.deferred, 0, n);
      assert one.deferred[0..] == one.deferred;
    }
  }

  /** Exactness for any roots and any traversal: an untruncated graph keeps exactly what the searches reach. */
  lemma GraphExact(env: Env, budget: nat, n: string)
    requires !Final(env, budget).truncated
    ensures n in Final(env, budget).retained <==> Kept(env, ReachAll(env), n)
  {
    var one := PassOne(env, budget);
    UntruncatedPassOne(env, budget);
    PassOneReach(env, budget);
    assert one.visited == OpenOf(env, ReachAll(env));
  }

  // ---------------------------------------------------------------- several roots

  /** Closer to some root than the depth limit. */
  ghost predicate InsideSomeRoot(env: Env, u: string) {
    Radius(env) > 0 && exists r :: r in env.t.roots && InsideRoot(env, r, u)
  }

  ghost predicate InsideRoot(env: Env, root: string, u: string)
    requires Radius(env) > 0
  {
    Startable(env, root) && u in Ball(env, {}, root, Radius(env) - 1)
  }

  /** The `i`-th root is searched from, and its search first meets `u` at the depth limit, where it stops. */
  ghost predicate MetAtLimit(env: Env, i: nat, u: string)
    requires i < |env.t.roots|
  {
    var known, root := Reach(env, i), env.t.roots[i];
    && u in Reached(env, known, root)
    && (Radius(env) > 0 ==> u !in Ball(env, known, root, Radius(env) - 1))
  }

  ghost predicate AtLimit(env: Env, u: string) {
    exists i :: 0 <= i < |env.t.roots| && MetAtLimit(env, i, u)
  }

  /** Where the depth limit stops the searches, no root is close enough to lead further. */
  ghost predicate BorderIsLimit(env: Env) {
    forall u, v | AtLimit(env, u) && Hop(env, u, v) && v !in ReachAll(env) :: !InsideSomeRoot(env, u)
  }

  lemma {:induction false} ReachGrows(env: Env, i: nat, j: nat)
    requires i <= j <= |env.t.roots|
    ensures Reach(env, i) <= Reach(env, j)
    decreases j
  {
    if i < j { ReachGrows(env, i, j - 1); }
  }

  lemma RootReached(env: Env, i: nat)
    requires i < |env.t.roots| && Startable(env, env.t.roots[i])
    ensures env.t.roots[i] in Reach(env, i + 1) && Reach(env, i + 1) <= ReachAll(env)
  {
    ReachGrows(env, i + 1, |env.t.roots|);
    BallGrows(env, Reach(env, i), env.t.roots[i], 0, Radius(env));
  }

  /** Whatever is reached was met by one root's search. */
  lemma {:induction false} MetBy(env: Env, k: nat, u: string, v: string) returns (i: nat)
    requires k <= |env.t.roots| && u in Reach(env, k) && v !in Reach(env, k)
    ensures i < k && u in Reached(env, Reach(env, i), env.t.roots[i]) && v !in Reach(env, i + 1)
  {
    if u in Reach(env, k - 1) { i := MetBy(env, k - 1, u, v); } else { i := k - 1; }
  }

  lemma StoppedAtLimit(env: Env, known: set<string>, root: string, u: string, v: string)
    requires u in Reached(env, known, root) && Hop(env, u, v) && v !in known && v !in Reached(env, known, root)
    ensures Radius(env) > 0 ==> u !in Ball(env, known, root, Radius(env) - 1)
  {
    assert v in env.nodes;
  }

  lemma MetBefore(env: Env, i: nat, u: string, v: string)
    requires i < |env.t.roots| && u in Reached(env, Reach(env, i), env.t.roots[i])
    requires Hop(env, u, v) && v !in Reach(env, i + 1)
    ensures MetAtLimit(env, i, u)
  {
    StoppedAtLimit(env, Reach(env, i), env.t.roots[i], u, v);
  }

  /** Only the depth limit stops a search: a reached node with an unreached neighbour was met at the limit. */
  lemma BorderAtLimit(env: Env, u: string, v: string)
    requires u in ReachAll(env) && Hop(env, u, v) && v !in ReachAll(env)
    ensures AtLimit(env, u)
  {
    var i := MetBy(env, |env.t.roots|, u, v);
    MetBefore(env, i, u, v);
  }

  lemma {:induction false} BallReached(env: Env, i: nat, k: nat)
    requires i < |env.t.roots| && Startable(env, env.t.roots[i]) && k <= Radius(env) && BorderIsLimit(env)
    ensures Ball(env, {}, env.t.roots[i], k) <= ReachAll(env)
  {
    if k == 0 {
      RootReached(env, i);
    } else {
      BallReached(env, i, k - 1);
      forall u, v | u in ReachAll(env) && Hop(env, u, v) && v !in ReachAll(env) ensures !InsideSomeRoot(env, u) {
        BorderAtLimit(env, u, v);
      }
      NextReached(env, env.t.roots[i], k - 1, ReachAll(env));
    }
  }

  lemma NextReached(env: Env, root: string, k: nat, all: set<string>)
    requires root in env.t.roots && Startable(env, root) && k < Radius(env) && Ball(env, {}, root, k) <= all
    requires forall u, v | u in all && Hop(env, u, v) && v !in all :: !InsideSomeRoot(env, u)
    ensures Ball(env, {}, root, k + 1) <= all
  {
    forall v | v in Ball(env, {}, root, k + 1) && v !in Ball(env, {}, root, k) ensures v in all {
      var u :| u in Ball(env, {}, root, k) && Hop(env, u, v);
      InnerBall(env, root, k, u);
    }
  }

  lemma InnerBall(env: Env, root: string, k: nat, u: string)
    requires root in env.t.roots && Startable(env, root) && k < Radius(env) && u in Ball(env, {}, root, k)
    ensures InsideSomeRoot(env, u)
  {
    BallGrows(env, {}, root, k, Radius(env) - 1);
    assert InsideRoot(env, root, u);
  }

  lemma InsideLeadsNear(env: Env, u: string, v: string)
    requires InsideSomeRoot(env, u) && Hop(env, u, v)
    ensures NearSomeRoot(env, v)
  {
    var r :| r in env.t.roots && InsideRoot(env, r, u);
    assert v in env.nodes;
    assert NearRoot(env, r, v);
  }

  lemma AtLimitReached(env: Env, u: string)
    requires AtLimit(env, u)
    ensures u in ReachAll(env)
  {
    var i :| 0 <= i < |env.t.roots| && MetAtLimit(env, i, u);
    ReachGrows(env, i + 1, |env.t.roots|);
  }

  /**
   "Nothing near a root is missing" holds of several roots exactly when no node at which the depth limit
   stops a search, and which has an unreached neighbour, is closer to some root than that limit.
   */
  lemma NearIsReachedIff(env: Env)
    ensures (forall n | NearSomeRoot(env, n) :: n in ReachAll(env)) <==> BorderIsLimit(env)
  {
    if BorderIsLimit(env) {
      forall n | NearSomeRoot(env, n) ensures n in ReachAll(env) {
        var r :| r in env.t.roots && NearRoot(env, r, n);
        var i :| 0 <= i < |env.t.roots| && env.t.roots[i] == r;
        BallReached(env, i, Radius(env));
      }
    }
    if forall n | NearSomeRoot(env, n) :: n in ReachAll(env) {
      forall u, v | AtLimit(env, u) && Hop(env, u, v) && v !in ReachAll(env) ensures !InsideSomeRoot(env, u) {
        if InsideSomeRoot(env, u) { InsideLeadsNear(env, u, v); }
      }
    }
  }

  // ---------------------------------------------------------------- roots that stay apart

  /** What lies within the depth limit of one root is not closer than that to another. */
  ghost predicate RootsApart(env: Env) {
    forall r, q | r in env.t.roots && q in env.t.roots && r != q :: StayApart(env, r, q)
  }

  ghost predicate StayApart(env: Env, r: string, q: string) {
    Startable(env, r) && Startable(env, q) && Radius(env) > 0 ==>
      Ball(env, {}, r, Radius(env)) !! Ball(env, {}, q, Radius(env) - 1)
  }

  lemma RootReaches(env: Env, known: set<string>, root: string)
    requires Startable(env, root) && root !in known
    ensures root in Reached(env, known, root)
  {
    BallGrows(env, known, root, 0, Radius(env));
  }

  /** A known node lies near the earlier root that first met it, which is itself known. */
  lemma {:induction false} KnownNear(env: Env, i: nat, n: string) returns (r: string)
    requires i <= |env.t.roots| && n in Reach(env, i)
    ensures r in env.t.roots && r in Reach(env, i) && NearRoot(env, r, n)
  {
    var known := Reach(env, i - 1);
    r := env.t.roots[i - 1];
    if n in known {
      r := KnownNear(env, i - 1, n);
    } else {
      RootReaches(env, known, r);
      BallShrinks(env, known, r, Radius(env));
    }
  }

  lemma {:induction false} Undisturbed(env: Env, avoid: set<string>, root: string, k: nat)
    requires Ball(env, {}, root, k) !! avoid
    ensures Ball(env, avoid, root, k) == Ball(env, {}, root, k)
  {
    if k > 0 {
      BallGrows(env, {}, root, k - 1, k);
      Undisturbed(env, avoid, root, k - 1);
    }
  }

  lemma KnownOutside(env: Env, i: nat, root: string, n: string)
    requires RootsApart(env) && i <= |env.t.roots| && Radius(env) > 0
    requires root in env.t.roots && root !in Reach(env, i) && Startable(env, root) && n in Reach(env, i)
    ensures n !in Ball(env, {}, root, Radius(env) - 1)
  {
    var r := KnownNear(env, i, n);
    assert StayApart(env, r, root);
  }

  /** Earlier searches do not disturb a later one inside the depth limit. */
  lemma InnerUndisturbed(env: Env, i: nat, root: string)
    requires RootsApart(env) && i <= |env.t.roots| && Radius(env) > 0
    requires root in env.t.roots && root !in Reach(env, i) && Startable(env, root)
    ensures Ball(env, Reach(env, i), root, Radius(env) - 1) == Ball(env, {}, root, Radius(env) - 1)
  {
    hide RootsApart, Reach, Radius;
    forall n | n in Reach(env, i) ensures n !in Ball(env, {}, root, Radius(env) - 1) {
      KnownOutside(env, i, root, n);
    }
    Undisturbed(env, Reach(env, i), root, Radius(env) - 1);
  }

  lemma LimitOutsideRoot(env: Env, known: set<string>, root: string, q: string, u: string)
    requires Radius(env) > 0 && Startable(env, root) && u in Ball(env, known, root, Radius(env))
    requires u !in Ball(env, {}, root, Radius(env) - 1) && (q != root ==> StayApart(env, root, q))
    ensures !InsideRoot(env, q, u)
  {
    BallShrinks(env, known, root, Radius(env));
  }

  lemma LimitOutside(env: Env, i: nat, u: string)
    requires RootsApart(env) && i < |env.t.roots| && MetAtLimit(env, i, u)
    ensures !InsideSomeRoot(env, u)
  {
    var known, root := Reach(env, i), env.t.roots[i];
    if Radius(env) > 0 {
      InnerUndisturbed(env, i, root);
      forall q | q in env.t.roots ensures !InsideRoot(env, q, u) {
        LimitOutsideRoot(env, known, root, q, u);
      }
    }
  }

  /**
   A condition on the input: if no node within the depth limit of one root is closer than that to another,
   nothing near a root is missing, in whatever order the roots are searched.
   */
  lemma RootsApartReachAll(env: Env)
    requires RootsApart(env)
    ensures BorderIsLimit(env) && forall n :: n in ReachAll(env) <==> NearSomeRoot(env, n)
  {
    forall u, v | AtLimit(env, u) && Hop(env, u, v) && v !in ReachAll(env) ensures !InsideSomeRoot(env, u) {
      var i :| 0 <= i < |env.t.roots| && MetAtLimit(env, i, u);
      LimitOutside(env, i, u);
    }
    NearIsReachedIff(env);
    forall n | n in ReachAll(env) ensures NearSomeRoot(env, n) {
      var r := KnownNear(env, |env.t.roots|, n);
    }
  }

  // ---------------------------------------------------------------- roots that do not

  const NODE_A := Node("A", Ready, 1, true)
  const NODE_B := Node("B", Ready, 2, true)
  const NODE_C := Node("C", Ready, 3, true)
  const A_BLOCKS_B := Edge("A", "B", "blocks")
  const B_CONTAINS_C := Edge("B", "C", "contains")
  const CHAIN := Snapshot(None, [NODE_A, NODE_B, NODE_C], [A_BLOCKS_B, B_CONTAINS_C], [], None)
  const TWO_ROOTS := Traversal(["A", "B"], "", 1, Both, ["blocks"], true, true, false, true)

  lemma ChainNodes()
    ensures NodesByID(CHAIN.nodes) == map["A" := NODE_A, "B" := NODE_B, "C" := NODE_C]
  {
    var nodes := CHAIN.nodes;
    assert nodes[..2][..1] == [NODE_A] && nodes[..2][..1][..0] == [] && nodes[..2][1] == NODE_B;
    assert NodesByID(nodes[..2][..1]) == map["A" := NODE_A];
    assert NodesByID(nodes[..2]) == map["A" := NODE_A, "B" := NODE_B];
  }

  lemma ChainEdges(byID: map<string, Node>)
    requires byID.Keys == {"A", "B", "C"}
    ensures UsableEdges(CHAIN.edges, byID, TWO_ROOTS) == [A_BLOCKS_B, B_CONTAINS_C]
  {
    var edges := CHAIN.edges;
    assert edges[..1] == [A_BLOCKS_B] && edges[..1][..0] == [];
    assert UsableEdges(edges[..1], byID, TWO_ROOTS) == [A_BLOCKS_B];
  }

  lemma ChainEnv()
    ensures MakeEnv(CHAIN, TWO_ROOTS)
         == Env(map["A" := NODE_A, "B" := NODE_B, "C" := NODE_C], [A_BLOCKS_B, B_CONTAINS_C], TWO_ROOTS)
  {
    ChainNodes();
    ChainEdges(NodesByID(CHAIN.nodes));
  }

  ghost predicate ChainShape(env: Env) {
    && env.t == TWO_ROOTS && env.nodes.Keys == {"A", "B", "C"}
    && Passable(env, "A") && Passable(env, "B")
    && Hop(env, "A", "B") && Hop(env, "B", "C") && !Hop(env, "A", "C")
  }

  lemma ChainHops(env: Env)
    requires env == MakeEnv(CHAIN, TWO_ROOTS)
    ensures ChainShape(env)
  {
    ChainEnv();
    assert Leads(env, A_BLOCKS_B, "A", "B");
    assert Leads(env, B_CONTAINS_C, "B", "C");
    forall e ensures !Leads(env, e, "A", "C") {
      assert e in env.edges ==> e == A_BLOCKS_B || e == B_CONTAINS_C;
    }
  }

  lemma ChainBalls(env: Env)
    requires ChainShape(env)
    ensures Ball(env, {}, "A", 1) == {"A", "B"} && "C" in Ball(env, {}, "B", 1)
  {
    assert Ball(env, {}, "A", 0) == {"A"} && Ball(env, {}, "B", 0) == {"B"};
  }

  lemma ChainReach(env: Env)
    requires ChainShape(env)
    ensures ReachAll(env) == {"A", "B"} && NearSomeRoot(env, "C")
  {
    ChainBalls(env);
    assert Reach(env, 0) == {} && Reach(env, 1) == {"A", "B"} && Reach(env, 2) == {"A", "B"};
    assert "B" in env.t.roots && NearRoot(env, "B", "C");
  }

  /**
   The promise fails with two roots and depth one: A blocks B, B contains C. B is reached from A at the
   depth limit, so it is not searched from again, and C, one step from the root B, is missing.
   */
  lemma NearButMissing()
    ensures var r := Build(CHAIN, TWO_ROOTS, 10);
            && !r.Truncated() && (forall n | n in r.nodes :: n.id != "C")
            && NearSomeRoot(MakeEnv(CHAIN, TWO_ROOTS), "C")
  {
    var env := MakeEnv(CHAIN, TWO_ROOTS);
    ChainFits(env);
    ChainHops(env);
    ChainReach(env);
    GraphExact(env, 10, "C");
    UnfilteredShort(env, CHAIN.nodes);
    NodesRetained(CHAIN, TWO_ROOTS, 10);
  }

  lemma ChainFits(env: Env)
    requires env == MakeEnv(CHAIN, TWO_ROOTS)
    ensures !Final(env, 10).truncated
  {
    ChainHops(env);
    FinalWellFormed(env, 10);
    DistinctFits(Final(env, 10).retained, env.nodes.Keys);
  }

  lemma NodesRetained(snapshot: Snapshot, t: Traversal, budget: nat)
    requires EntryPointsSupplied(snapshot, t, budget)
    ensures forall n | n in Build(snapshot, t, budget).nodes :: n.id in Final(MakeEnv(snapshot, t), budget).retained
  {
    var env := MakeEnv(snapshot, t);
    var st := Final(env, budget);
    FinalWellFormed(env, budget);
    forall n | n in NodesOf(env, st.retained) ensures n.id in st.retained {
      var i :| 0 <= i < |st.retained| && n == env.nodes[st.retained[i]];
      assert st.retained[i] in st.retained;
    }
  }

  lemma {:induction false} UnfilteredShort(env: Env, nodes: seq<Node>)
    ensures |UnfilteredIDs(env, nodes)| <= |nodes|
  {
    if nodes != [] { UnfilteredShort(env, nodes[..|nodes| - 1]); }
  }

  // ---------------------------------------------------------------- one root

  ghost predicate OneRoot(env: Env, root: string) { env.t.roots == [root] && Startable(env, root) }

  lemma OneRootReach(env: Env, root: string)
    requires OneRoot(env, root)
    ensures ReachAll(env) == Ball(env, {}, root, Radius(env)) && BorderIsLimit(env)
  {
    assert Reach(env, 0) == {} && Reach(env, 1) == Ball(env, {}, root, Radius(env));
    NearIsReachedIff(env);
  }

  /** With one root the first pass is one search, started from nothing. */
  lemma OneSearch(env: Env, root: string, budget: int) returns (d: nat)
    requires OneRoot(env, root)
    ensures var one, ball := PassOne(env, budget), BallsAround(env, {}, root);
            && IsBalls(env, {}, ball) && Searching(env, ball, budget, START, one, d, {})
            && (!one.truncated ==> one.queue == [])
  {
    var ball := BallsAround(env, {}, root);
    BallsAroundRoot(env, {}, root);
    assert ball(0) == {root} && Known(START) == {};
    RootMet(env, ball, budget, START, root);
    var st := AddNode(env, budget, START, root, 0, root == env.t.explicitRoot).0;
    OneStep(env, root, budget);
    d := 0;
    if root in Known(st) {
      d := DrainSearching(env, ball, budget, START, st, 0);
    } else {
      PassOneKeeps(env, budget);
      NothingFound(env, ball, st);
    }
  }

  lemma OneStep(env: Env, root: string, budget: int)
    requires OneRoot(env, root)
    ensures var st := AddNode(env, budget, START, root, 0, root == env.t.explicitRoot).0;
            PassOne(env, budget) == if root in Known(st) then Drain(env, budget, st) else st
  {
    var (next, stop) := RootStep(env, budget, START, root);
    assert FromRoots(env, budget, next, 1) == next;
  }

  lemma NothingFound(env: Env, ball: Balls, st: State)
    requires st == START.(truncated := true, budgetExhausted := true)
    ensures Progress(env, ball, START, st, 0, {})
  {
  }

  /** An edge of the finished part: it joins a node of the second pass to the graph. */
  ghost predicate JoinsFinished(env: Env, st: State, e: Edge) {
    && e in env.edges && e.source in st.visited && e.target in st.visited
    && (Deferrable(env, e.source) || Deferrable(env, e.target))
  }

  /** The edges of the second pass: every usable edge between retained nodes that touches a finished one. */
  lemma {:induction false} FromDeferredEdges(env: Env, budget: int, passOne: State, st: State, i: nat)
    requires SecondInvariant(env, budget, passOne, st, i) && (forall id | id in passOne.visited :: !Deferrable(env, id))
    requires forall e :: e in st.seenEdges <==> e in passOne.seenEdges || JoinsFinished(env, st, e)
    ensures var after := FromDeferred(env, budget, passOne.visited, st, i);
            forall e :: e in after.seenEdges <==> e in passOne.seenEdges || JoinsFinished(env, after, e)
    decreases |st.deferred| - i
  {
    if i < |st.deferred| && |st.retained| < budget {
      var id := st.deferred[i];
      if Attached(env, passOne.visited, id) {
        AdmitKeeps(env, budget, passOne, st, i);
        AdmitKeepsDeferred(env, st, id);
        AdmitEdges(env, budget, passOne, st, i);
        FromDeferredEdges(env, budget, passOne, Admit(env, st, id), i + 1);
      } else {
        PrefixWithin(st.deferred, i, i + 1);
        FromDeferredEdges(env, budget, passOne, st, i + 1);
      }
    }
  }

  lemma AdmitEdges(env: Env, budget: int, passOne: State, st: State, i: nat)
    requires SecondInvariant(env, budget, passOne, st, i) && i < |st.deferred|
    requires forall e :: e in st.seenEdges <==> e in passOne.seenEdges || JoinsFinished(env, st, e)
    ensures var after := Admit(env, st, st.deferred[i]);
            forall e :: e in after.seenEdges <==> e in passOne.seenEdges || JoinsFinished(env, after, e)
  {
    var id := st.deferred[i];
    assert id in passOne.deferred;
    var next := st.(visited := st.visited + {id}, retained := st.retained + [id]);
    AppendKeeps(next, id, Incident(env.edges, id));
    AppendVisitedKeeps(env, next, id, Incident(env.edges, id));
  }

  /** An edge the search follows between open nodes. */
  ghost predicate OpenFollowed(env: Env, ball: Balls, e: Edge) {
    exists u, n :: Followed(env, ball, e, u, n) && !Deferrable(env, u) && !Deferrable(env, n)
  }

  lemma SearchEdges(env: Env, root: string, budget: nat)
    requires OneRoot(env, root) && !Final(env, budget).truncated
    ensures var st, ball := Final(env, budget), BallsAround(env, {}, root);
            forall e :: e in st.edges <==> JoinsFinished(env, st, e) || OpenFollowed(env, ball, e)
  {
    var one, ball := PassOne(env, budget), BallsAround(env, {}, root);
    UntruncatedPassOne(env, budget);
    var d := OneSearch(env, root, budget);
    FromDeferredKeeps(env, budget, one, one, 0);
    FinalWellFormed(env, budget);
    FromDeferredEdges(env, budget, one, one, 0);
    OneRootEdges(env, budget, ball, one, d);
  }

  /**
   Exactness for one root, with or without deferral. An untruncated graph holds exactly the open nodes
   within `depth` hops of the root and the includable finished ones among them that open work is
   attached to; and exactly the edges followed between open nodes and those that touch finished ones.
   */
  lemma SearchExact(env: Env, root: string, budget: nat)
    requires OneRoot(env, root) && !Final(env, budget).truncated
    ensures var st, ball := Final(env, budget), BallsAround(env, {}, root);
            && (forall n :: n in st.retained <==> Kept(env, Ball(env, {}, root, Radius(env)), n))
            && (forall e :: e in st.edges <==> JoinsFinished(env, st, e) || OpenFollowed(env, ball, e))
  {
    OneRootReach(env, root);
    forall n ensures n in Final(env, budget).retained <==> Kept(env, Ball(env, {}, root, Radius(env)), n) {
      GraphExact(env, budget, n);
    }
    SearchEdges(env, root, budget);
  }

  /** The edges of a finished search are those it follows between open nodes. */
  lemma OneRootEdges(env: Env, budget: nat, ball: Balls, one: State, d: nat)
    requires IsBalls(env, {}, ball) && Searching(env, ball, budget, START, one, d, {})
    requires !one.truncated && one.queue == []
    ensures forall e :: e in one.seenEdges <==> OpenFollowed(env, ball, e)
  {
    assert Known(START) == {};
    forall e, u, n | Followed(env, ball, e, u, n) && !Deferrable(env, u) && !Deferrable(env, n)
      ensures e in one.seenEdges
    {
      Exhausted(env, ball, START, one, d, Radius(env) - 1);
      ReachedFrom(env, ball, START, one, e, u, n);
    }
  }

  /** What the second pass adds is finished work the first pass met, and only if that pass dropped nothing. */
  lemma FinishedFollows(env: Env, budget: nat)
    ensures var one, all := PassOne(env, budget), Final(env, budget).retained;
            && one.retained <= all
            && forall n | n in all[|one.retained|..] :: Deferrable(env, n) && n in Known(one) && !one.truncated
  {
    var one := PassOne(env, budget);
    PassOneKeeps(env, budget);
    FinalRetains(env, budget);
    forall n | n in Final(env, budget).retained[|one.retained|..]
      ensures Deferrable(env, n) && n in Known(one) && !one.truncated
    {
      AdmissibleExact(env, one.visited, one.deferred, 0, n);
      assert one.deferred[0..] == one.deferred;
      assert n in one.deferredSeen;
    }
  }

  /**
   Nearest first, for one root under any budget, with or without deferral: the first pass retains nodes
   in order of distance, and no open node left out is nearer than a retained one; finished work follows,
   from within the depth limit, and only if no open work was dropped.
   */
  lemma SearchNearestFirst(env: Env, root: string, budget: nat)
    requires OneRoot(env, root)
    ensures var one, ball := PassOne(env, budget), BallsAround(env, {}, root);
            && Known(one) <= Ball(env, {}, root, Radius(env))
            && OrderedByDistance(ball, one.retained)
            && (forall k: nat :: NearestAt(env, ball, one.visited, k))
            && one.retained <= Final(env, budget).retained
            && (forall n | n in Final(env, budget).retained[|one.retained|..] ::
                  Deferrable(env, n) && n in Ball(env, {}, root, Radius(env)) && !one.truncated)
  {
    var one, ball := PassOne(env, budget), BallsAround(env, {}, root);
    var d := OneSearch(env, root, budget);
    FromNothing(env, ball, one);
    assert ball(Radius(env)) == Ball(env, {}, root, Radius(env));
    FinishedFollows(env, budget);
  }

  lemma FromNothing(env: Env, ball: Balls, one: State)
    requires Sound(env, ball, START, one)
    ensures Known(one) <= ball(Radius(env)) && OrderedByDistance(ball, one.retained)
    ensures forall k: nat :: NearestAt(env, ball, one.visited, k)
  {
    assert Known(START) == {} && Fresh(START, one) == one.retained && one.visited - START.visited == one.visited;
  }
}
