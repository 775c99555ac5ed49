/**
 Dependency cycles. One breadth-first search answers whether a `blocks` path exists; checking an
 imported batch for cycles and admitting new edges one at a time are both built on it.
 */
module BlocksCycles {

  /** A finite directed graph, as its set of edges. */
  type Graph = set<(string, string)>

  predicate Edge(g: Graph, a: string, b: string) { (a, b) in g }

  ghost predicate Path(g: Graph, p: seq<string>) {
    |p| >= 2 && forall i {:trigger p[i]} | 0 < i < |p| :: Edge(g, p[i - 1], p[i])
  }

  ghost predicate PathFromTo(g: Graph, a: string, b: string, p: seq<string>) {
    Path(g, p) && p[0] == a && p[|p| - 1] == b
  }

  /** A directed path of at least one edge leads from `a` to `b`. */
  ghost predicate Reaches(g: Graph, a: string, b: string) {
    exists p :: PathFromTo(g, a, b, p)
  }

  ghost predicate Acyclic(g: Graph) {
    forall n :: !Reaches(g, n, n)
  }

  // ---------------------------------------------------------------- paths

  lemma EdgeReaches(g: Graph, a: string, b: string)
    requires Edge(g, a, b)
    ensures Reaches(g, a, b)
  {
    assert PathFromTo(g, a, b, [a, b]);
  }

  lemma ReachesTransitive(g: Graph, a: string, b: string, c: string)
    requires Reaches(g, a, b) && Reaches(g, b, c)
    ensures Reaches(g, a, c)
  {
    var p :| PathFromTo(g, a, b, p);
    var q :| PathFromTo(g, b, c, q);
    var r := p + q[1..];
    forall i {:trigger r[i]} | 0 < i < |r| ensures Edge(g, r[i - 1], r[i]) {
      if i < |p| {
        assert r[i] == p[i];
      } else {
        var k := i - |p| + 1;
        assert r[i] == q[k] && r[i - 1] == q[k - 1];
      }
    }
    assert PathFromTo(g, a, c, r);
  }

  lemma PathTail(g: Graph, p: seq<string>)
    requires Path(g, p) && |p| > 2
    ensures Path(g, p[1..])
  {
    var q := p[1..];
    forall i {:trigger q[i]} | 0 < i < |q| ensures Edge(g, q[i - 1], q[i]) {
      assert q[i] == p[i + 1] && q[i - 1] == p[i];
    }
  }

  /** A path never leaves a set of nodes that is closed under edges. */
  lemma {:induction false} PathStays(g: Graph, closed: set<string>, p: seq<string>)
    requires Path(g, p) && p[0] in closed
    requires forall a, b | a in closed && Edge(g, a, b) :: b in closed
    ensures p[|p| - 2] in closed && Edge(g, p[|p| - 2], p[|p| - 1])
  {
    assert Edge(g, p[0], p[1]);
    if |p| > 2 {
      PathTail(g, p);
      PathStays(g, closed, p[1..]);
    }
  }

  /** Reachability in a larger graph, split at the new edge. */
  lemma {:induction false} AroundNewEdge(g: Graph, u: string, v: string, p: seq<string>)
    requires Path(g + {(u, v)}, p)
    ensures var a, b := p[0], p[|p| - 1];
            || Reaches(g, a, b)
            || ((a == u || Reaches(g, a, u)) && (b == v || Reaches(g, v, b)))
  {
    var a, b, c := p[0], p[|p| - 1], p[1];
    assert Edge(g + {(u, v)}, a, c);
    if Edge(g, a, c) { EdgeReaches(g, a, c); }
    if |p| > 2 {
      PathTail(g + {(u, v)}, p);
      AroundNewEdge(g, u, v, p[1..]);
      if Edge(g, a, c) {
        if Reaches(g, c, b) { ReachesTransitive(g, a, c, b); }
        else if c != u { ReachesTransitive(g, a, c, u); }
      }
    }
  }

  lemma MoreEdges(g: Graph, h: Graph, a: string, b: string)
    requires g <= h && Reaches(g, a, b)
    ensures Reaches(h, a, b)
  {
    var p :| PathFromTo(g, a, b, p);
    forall i {:trigger p[i]} | 0 < i < |p| ensures Edge(h, p[i - 1], p[i]) {
      assert Edge(g, p[i - 1], p[i]);
    }
    assert PathFromTo(h, a, b, p);
  }

  /** Adding an edge closes a cycle exactly when it is a loop or a path already runs the other way. */
  lemma NewEdgeKeepsAcyclic(g: Graph, u: string, v: string)
    requires Acyclic(g)
    ensures Acyclic(g + {(u, v)}) <==> u != v && !Reaches(g, v, u)
  {
    var h := g + {(u, v)};
    EdgeReaches(h, u, v);
    if Reaches(g, v, u) {
      MoreEdges(g, h, v, u);
      ReachesTransitive(h, u, v, u);
    }
    if u != v && !Reaches(g, v, u) {
      forall n ensures !Reaches(h, n, n) {
        if Reaches(h, n, n) {
          var p :| PathFromTo(h, n, n, p);
          AroundNewEdge(g, u, v, p);
          if n != u && n != v { ReachesTransitive(g, v, n, u); }
          assert false;
        }
      }
    }
  }

  /** Every cycle passes through the source of an edge, so checking those nodes is enough. */
  lemma CycleHasSource(g: Graph, n: string)
    requires Reaches(g, n, n)
    ensures exists b :: Edge(g, n, b)
  {
    var p :| PathFromTo(g, n, n, p);
    assert Edge(g, p[0], p[1]);
  }

  // ---------------------------------------------------------------- the search

  ghost predicate Distinct(s: seq<string>) {
    forall i, j | 0 <= i < j < |s| :: s[i] != s[j]
  }

  lemma DistinctPrefix(s: seq<string>, t: seq<string>)
    requires Distinct(s + t)
    ensures Distinct(s)
  {
    assert forall i | 0 <= i < |s| :: s[i] == (s + t)[i];
  }

  /** `neighbors` lists the direct successors of every node of the graph. */
  ghost predicate Lists(neighbors: string -> seq<string>, g: Graph) {
    forall a, b :: b in neighbors(a) <==> Edge(g, a, b)
  }

  ghost function Targets(g: Graph): set<string> { set e | e in g :: e.1 }

  lemma EdgeTarget(g: Graph, a: string, b: string)
    requires Edge(g, a, b)
    ensures b in Targets(g)
  {
    assert (a, b) in g && (a, b).1 == b;
  }

  /** What the search knows: expanded nodes, then queued ones, all reached and none repeated. */
  ghost predicate Searching(g: Graph, start: string, seen: set<string>, expanded: seq<string>, queue: seq<string>) {
    && start in seen
    && (forall n | n in seen :: n == start || (n in Targets(g) && Reaches(g, start, n)))
    && Distinct(expanded + queue)
    && (forall n :: n in seen <==> n in expanded + queue)
  }

  lemma Discover(g: Graph, start: string, seen: set<string>, expanded: seq<string>, queue: seq<string>,
                 current: string, next: string)
    requires Searching(g, start, seen, expanded, queue) && current in seen && Edge(g, current, next) && next !in seen
    ensures Searching(g, start, seen + {next}, expanded, queue + [next])
  {
    EdgeTarget(g, current, next);
    EdgeReaches(g, current, next);
    if current != start { ReachesTransitive(g, start, current, next); }
    assert expanded + (queue + [next]) == (expanded + queue) + [next];
  }

  /** No edge of an expanded node leads to an unseen node or to the sought one. */
  ghost predicate Cleared(g: Graph, expanded: seq<string>, seen: set<string>, sought: string) {
    forall a, b | a in expanded && Edge(g, a, b) :: b in seen && b != sought
  }

  lemma ClearNode(g: Graph, expanded: seq<string>, before: set<string>, seen: set<string>, sought: string,
                  current: string, successors: seq<string>)
    requires Cleared(g, expanded, before, sought) && before <= seen
    requires forall b | Edge(g, current, b) :: b in successors
    requires forall k | 0 <= k < |successors| :: successors[k] in seen && successors[k] != sought
    ensures Cleared(g, expanded + [current], seen, sought)
  {
  }

  lemma Pop(g: Graph, start: string, seen: set<string>, expanded: seq<string>, queue: seq<string>)
    requires Searching(g, start, seen, expanded, queue) && queue != []
    ensures Searching(g, start, seen, expanded + [queue[0]], queue[1..])
    ensures queue[0] in seen && Distinct(expanded + [queue[0]])
  {
    assert (expanded + [queue[0]]) + queue[1..] == expanded + queue;
    assert queue[0] in expanded + queue;
    DistinctPrefix(expanded + [queue[0]], queue[1..]);
  }

  /** Nothing is left to expand and nothing expanded has an edge to the sought node. */
  lemma SearchComplete(g: Graph, start: string, sought: string, seen: set<string>, expanded: seq<string>)
    requires Searching(g, start, seen, expanded, [])
    requires Cleared(g, expanded, seen, sought)
    ensures !Reaches(g, start, sought) && Distinct(expanded)
  {
    assert expanded + [] == expanded;
    if Reaches(g, start, sought) {
      var p :| PathFromTo(g, start, sought, p);
      PathStays(g, seen, p);
      assert false;
    }
  }

  lemma SearchFound(g: Graph, start: string, sought: string, current: string)
    requires Edge(g, current, sought) && (current == start || Reaches(g, start, current))
    ensures Reaches(g, start, sought)
  {
    EdgeReaches(g, current, sought);
    if current != start { ReachesTransitive(g, start, current, sought); }
  }

  lemma SearchStart(g: Graph, start: string, sought: string)
    ensures Searching(g, start, {start}, [], [start]) && Cleared(g, [], {start}, sought)
  {
    assert [] + [start] == [start];
  }

  lemma SearchReached(g: Graph, start: string, seen: set<string>, expanded: seq<string>, queue: seq<string>)
    requires Searching(g, start, seen, expanded, queue)
    ensures Distinct(expanded) && seen <= Targets(g) + {start}
    ensures forall n | n in expanded :: n == start || Reaches(g, start, n)
  {
    DistinctPrefix(expanded, queue);
    assert forall n | n in expanded :: n in expanded + queue;
  }

  /** Breadth-first search; `expanded` records the calls of `neighbors`. */
  method BlocksPathExists(start: string, sought: string, neighbors: string -> seq<string>, ghost g: Graph)
    returns (found: bool, ghost expanded: seq<string>)
    requires Lists(neighbors, g)
    ensures found <==> Reaches(g, start, sought)
    ensures Distinct(expanded)
    ensures forall n | n in expanded :: n == start || Reaches(g, start, n)
  {
    hide Searching, Cleared, Reaches, Targets, Distinct;
    var seen, queue := {start}, [start];
    expanded := [];
    SearchStart(g, start, sought);
    while queue != []
      invariant Searching(g, start, seen, expanded, queue)
      invariant Cleared(g, expanded, seen, sought)
      decreases Targets(g) + {start} - seen, |queue|
    {
      Pop(g, start, seen, expanded, queue);
      var current := queue[0];
      queue := queue[1..];
      ghost var done, before, left := expanded, seen, |queue|;
      expanded := expanded + [current];
      SearchReached(g, start, seen, expanded, queue);
      var successors := neighbors(current);
      for i := 0 to |successors|
        invariant Searching(g, start, seen, expanded, queue)
        invariant before <= seen && (seen == before ==> |queue| == left)
        invariant forall k | 0 <= k < i :: successors[k] in seen && successors[k] != sought
      {
        var next := successors[i];
        assert Edge(g, current, next);
        if next == sought {
          SearchFound(g, start, sought, current);
          found := true;
          return;
        }
        if next in seen { continue; }
        Discover(g, start, seen, expanded, queue, current, next);
        seen := seen + {next};
        queue := queue + [next];
      }
      SearchReached(g, start, seen, expanded, queue);
      ClearNode(g, done, before, seen, sought, current, successors);
    }
    SearchReached(g, start, seen, expanded, queue);
    SearchComplete(g, start, sought, seen, expanded);
    found := false;
  }

  // ---------------------------------------------------------------- imported batches

  const BLOCKS := "blocks"

  datatype Relation = Relation(source: string, target: string, kind: string)

  ghost function BlocksOf(relations: seq<Relation>): Graph {
    set r | r in relations && r.kind == "blocks" :: (r.source, r.target)
  }

  type Adjacency = map<string, seq<string>>

  function Successors(adjacency: Adjacency, n: string): seq<string> {
    if n in adjacency then adjacency[n] else []
  }

  /** The adjacency map lists exactly the edges, and has an entry only where an edge starts. */
  ghost predicate Represents(adjacency: Adjacency, g: Graph) {
    && Lists(n => Successors(adjacency, n), g)
    && forall n | n in adjacency :: adjacency[n] != []
  }

  function WithEdge(adjacency: Adjacency, u: string, v: string): Adjacency {
    adjacency[u := Successors(adjacency, u) + [v]]
  }

  lemma AddsEdge(adjacency: Adjacency, g: Graph, u: string, v: string)
    requires Represents(adjacency, g)
    ensures Represents(WithEdge(adjacency, u, v), g + {(u, v)})
  {
    var after := WithEdge(adjacency, u, v);
    var h := g + {(u, v)};
    forall a, b ensures b in Successors(after, a) <==> Edge(h, a, b) {
      EdgeAt(adjacency, g, a, b);
    }
  }

  lemma EdgeAt(adjacency: Adjacency, g: Graph, a: string, b: string)
    requires Represents(adjacency, g)
    ensures b in Successors(adjacency, a) <==> Edge(g, a, b)
  {
    var neighbors := n => Successors(adjacency, n);
    assert b in neighbors(a) <==> Edge(g, a, b);
  }

  /** A batch is refused exactly when its `blocks` relations have a cycle. */
  method ValidateBlocksAcyclicity(relations: seq<Relation>) returns (ok: bool)
    ensures ok <==> Acyclic(BlocksOf(relations))
  {
    var adjacency: Adjacency := map[];
    for i := 0 to |relations|
      invariant Represents(adjacency, BlocksOf(relations[..i]))
    {
      var relation := relations[i];
      assert relations[..i + 1] == relations[..i] + [relation];
      if relation.kind != BLOCKS {
        assert BlocksOf(relations[..i + 1]) == BlocksOf(relations[..i]);
        continue;
      }
      assert BlocksOf(relations[..i + 1]) == BlocksOf(relations[..i]) + {(relation.source, relation.target)};
      AddsEdge(adjacency, BlocksOf(relations[..i]), relation.source, relation.target);
      adjacency := WithEdge(adjacency, relation.source, relation.target);
    }
    assert relations[..|relations|] == relations;
    ghost var g := BlocksOf(relations);
    var pending := adjacency.Keys;
    while pending != {}
      invariant pending <= adjacency.Keys
      invariant forall n | n in adjacency && n !in pending :: !Reaches(g, n, n)
    {
      var node :| node in pending;
      pending := pending - {node};
      var cycle, _ := BlocksPathExists(node, node, n => Successors(adjacency, n), g);
      if cycle { return false; }
    }
    forall n ensures !Reaches(g, n, n) {
      if Reaches(g, n, n) {
        CycleHasSource(g, n);
        assert false;
      }
    }
    ok := true;
  }

  // ---------------------------------------------------------------- admitting edges one at a time

  datatype Verdict = Admitted | SelfRelation | Duplicate | Cycle

  /** The graph after the first `n` proposals: what was there, and what was admitted. */
  ghost function GraphAfter(g: Graph, proposed: seq<(string, string)>, verdicts: seq<Verdict>, n: nat): Graph
    requires n <= |proposed| && n <= |verdicts|
  {
    g + set k | 0 <= k < n && verdicts[k] == Admitted :: proposed[k]
  }

  /** The verdict on one proposal, in terms of cycles. */
  ghost function Judge(g: Graph, earlier: seq<(string, string)>, current: Graph, e: (string, string)): Verdict {
    if e.0 == e.1 then SelfRelation
    else if e in earlier || e in g then Duplicate
    else if Acyclic(current + {e}) then Admitted
    else Cycle
  }

  /** Every verdict so far is the judged one. */
  ghost predicate Judged(g: Graph, proposed: seq<(string, string)>, verdicts: seq<Verdict>)
    requires |verdicts| <= |proposed|
  {
    forall i | 0 <= i < |verdicts| ::
      verdicts[i] == Judge(g, proposed[..i], GraphAfter(g, proposed, verdicts, i), proposed[i])
  }

  /** One more verdict leaves the earlier graphs alone and adds the edge if it was admitted. */
  lemma Extend(g: Graph, proposed: seq<(string, string)>, verdicts: seq<Verdict>, verdict: Verdict)
    requires |verdicts| < |proposed|
    ensures forall k | 0 <= k <= |verdicts| ::
              GraphAfter(g, proposed, verdicts + [verdict], k) == GraphAfter(g, proposed, verdicts, k)
    ensures GraphAfter(g, proposed, verdicts + [verdict], |verdicts| + 1)
         == var before := GraphAfter(g, proposed, verdicts, |verdicts|);
            if verdict == Admitted then before + {proposed[|verdicts|]} else before
  {
    var longer := verdicts + [verdict];
    assert forall j | 0 <= j < |verdicts| :: longer[j] == verdicts[j];
  }

  lemma NoneAdmitted(g: Graph, proposed: seq<(string, string)>)
    ensures GraphAfter(g, proposed, [], 0) == g && Judged(g, proposed, [])
  {
  }

  lemma JudgedNext(g: Graph, proposed: seq<(string, string)>, verdicts: seq<Verdict>, verdict: Verdict)
    requires |verdicts| < |proposed| && Judged(g, proposed, verdicts)
    requires var i := |verdicts|;
             verdict == Judge(g, proposed[..i], GraphAfter(g, proposed, verdicts, i), proposed[i])
    ensures Judged(g, proposed, verdicts + [verdict])
  {
    hide Judge, GraphAfter;
    Extend(g, proposed, verdicts, verdict);
  }

  /** One new relation between two issues, against the stored graph and what was admitted so far. */
  method AdmitNew(stored: Adjacency, adjacency: Adjacency, ghost g: Graph, ghost current: Graph, e: (string, string))
    returns (after: Adjacency, verdict: Verdict)
    requires Represents(stored, g) && Represents(adjacency, current) && Acyclic(current) && e.0 != e.1
    ensures verdict == if e in g then Duplicate else if Acyclic(current + {e}) then Admitted else Cycle
    ensures var next := if verdict == Admitted then current + {e} else current;
            Represents(after, next) && Acyclic(next)
  {
    hide Acyclic, Reaches, WithEdge;
    EdgeAt(stored, g, e.0, e.1);
    if e.1 in Successors(stored, e.0) { return adjacency, Duplicate; }
    var cycle, _ := BlocksPathExists(e.1, e.0, n => Successors(adjacency, n), current);
    NewEdgeKeepsAcyclic(current, e.0, e.1);
    if cycle { return adjacency, Cycle; }
    AddsEdge(adjacency, current, e.0, e.1);
    return WithEdge(adjacency, e.0, e.1), Admitted;
  }

  /**
   A plan's `blocks` relations, in order: each is checked against the stored graph and the ones
   admitted before it. The graph stays acyclic, and a relation is refused for a cycle only when
   adding it would close one.
   */
  method AdmitBlocks(stored: Adjacency, ghost g: Graph, proposed: seq<(string, string)>)
    returns (adjacency: Adjacency, verdicts: seq<Verdict>)
    requires Represents(stored, g) && Acyclic(g)
    ensures |verdicts| == |proposed| && Judged(g, proposed, verdicts)
    ensures Represents(adjacency, GraphAfter(g, proposed, verdicts, |proposed|))
    ensures Acyclic(GraphAfter(g, proposed, verdicts, |proposed|))
  {
    hide Represents, Acyclic, Judged, GraphAfter;
    adjacency, verdicts := stored, [];
    var seen: set<(string, string)> := {};
    NoneAdmitted(g, proposed);
    for i := 0 to |proposed|
      invariant |verdicts| == i
      invariant forall e :: e in seen <==> e in proposed[..i] && e.0 != e.1
      invariant Judged(g, proposed, verdicts)
      invariant Represents(adjacency, GraphAfter(g, proposed, verdicts, i))
      invariant Acyclic(GraphAfter(g, proposed, verdicts, i))
    {
      var e := proposed[i];
      ghost var current := GraphAfter(g, proposed, verdicts, i);
      var verdict := Admitted;
      if e.0 == e.1 {
        verdict := SelfRelation;
      } else if e in seen {
        verdict := Duplicate;
      } else {
        seen := seen + {e};
        adjacency, verdict := AdmitNew(stored, adjacency, g, current, e);
      }
      JudgedNext(g, proposed, verdicts, verdict);
      Extend(g, proposed, verdicts, verdict);
      verdicts := verdicts + [verdict];
    }
  }
}
