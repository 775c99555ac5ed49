/**
 Overlap of reservations. Every resource denotes a language of targets; `Overlaps` decides whether
 two languages meet, and two resources with the same kind and key denote the same language.
 */
module ReservationOverlap {
  import opened Reservations

  // ---------------------------------------------------------------- languages

  /** What a reservation can cover: a path, in comparison form, or a named logical resource. */
  datatype Target = PathTarget(path: seq<string>) | LogicalTarget(namespace: string, name: string)

  /** A path as the comparison sees it: at least one segment, each one a folded segment text. */
  ghost predicate RealPath(p: seq<string>) {
    p != [] && forall s | s in p :: SegmentText(s) && AsciiFold(s) == s
  }

  ghost predicate RealTarget(t: Target) { t.PathTarget? ==> RealPath(t.path) }

  /** A glob matches a path segment by segment; a final "**" matches whatever is left. */
  predicate GlobMatches(segments: seq<Segment>, p: seq<string>) {
    if segments == [] then p == []
    else if segments[0].kind == StarStar then true
    else p != [] && (segments[0].kind == Star || p[0] == FoldedText(segments[0])) && GlobMatches(segments[1..], p[1..])
  }

  /** The language of a resource. */
  predicate Covers(r: Normalized, t: Target) {
    match t
    case LogicalTarget(namespace, name) => r.kind == Logical && r.namespace == namespace && r.name == name
    case PathTarget(p) =>
      match r.kind
      case File => p == Folded(r)
      case Directory => Folded(r) <= p
      case Glob => GlobMatches(r.segments, p)
      case _ => false
  }

  /** The two languages share a target. */
  ghost predicate Meet(a: Normalized, b: Normalized) {
    exists t :: RealTarget(t) && Covers(a, t) && Covers(b, t)
  }

  // ---------------------------------------------------------------- shapes

  /** `globShape`: literals and "*" positions, and whether a "**" follows. */
  datatype Shape = Shape(prefix: seq<string>, star: seq<bool>, open: bool)

  predicate ValidShape(g: Shape) { |g.prefix| == |g.star| }

  /** `shapeOf`, as a function of the segments. */
  function ShapeOf(segments: seq<Segment>): (g: Shape)
    ensures ValidShape(g)
  {
    if segments == [] then Shape([], [], false)
    else Extend(ShapeOf(segments[..|segments| - 1]), segments[|segments| - 1])
  }

  /** A path fits a shape: right length, and every literal position agrees. */
  predicate Fits(g: Shape, p: seq<string>)
    requires ValidShape(g)
  {
    && (if g.open then |g.prefix| <= |p| else |g.prefix| == |p|)
    && forall i | 0 <= i < |g.prefix| :: g.star[i] || g.prefix[i] == p[i]
  }

  /** Shared positions agree unless one of them is "*". */
  predicate Agree(g: Shape, h: Shape)
    requires ValidShape(g) && ValidShape(h)
  {
    forall i | 0 <= i < |g.prefix| && i < |h.prefix| :: g.star[i] || h.star[i] || g.prefix[i] == h.prefix[i]
  }

  /** The finite comparison: agreement, and the shorter side must be open. */
  predicate Intersect(g: Shape, h: Shape)
    requires ValidShape(g) && ValidShape(h)
  {
    && Agree(g, h)
    && (|g.prefix| < |h.prefix| ==> g.open)
    && (|h.prefix| < |g.prefix| ==> h.open)
  }

  /** Files and directories as shapes without "*". */
  function PlainShape(folded: seq<string>, open: bool): (g: Shape)
    ensures ValidShape(g)
  {
    Shape(folded, seq(|folded|, _ => false), open)
  }

  function ShapeFor(r: Normalized): (g: Shape)
    ensures ValidShape(g)
  {
    if r.kind == Glob then ShapeOf(r.segments) else PlainShape(Folded(r), r.kind == Directory)
  }

  /** The literals of a shape can occur in real paths, and a shape without positions is open. */
  ghost predicate RealShape(g: Shape)
    requires ValidShape(g)
  {
    && (forall i | 0 <= i < |g.prefix| && !g.star[i] ::
          SegmentText(g.prefix[i]) && AsciiFold(g.prefix[i]) == g.prefix[i])
    && (g.prefix == [] ==> g.open)
  }

  // ---------------------------------------------------------------- matching

  /** One more segment at the end of a shape. */
  function Extend(g: Shape, s: Segment): (r: Shape)
    requires ValidShape(g)
    ensures ValidShape(r)
  {
    match s.kind
    case StarStar => g.(open := true)
    case Star => Shape(g.prefix + ["*"], g.star + [true], g.open)
    case Literal => Shape(g.prefix + [FoldedText(s)], g.star + [false], g.open)
  }

  /** One more segment at the front. */
  function Precede(s: Segment, g: Shape): Shape {
    match s.kind
    case StarStar => Shape([], [], true)
    case Star => Shape(["*"] + g.prefix, [true] + g.star, g.open)
    case Literal => Shape([FoldedText(s)] + g.prefix, [false] + g.star, g.open)
  }

  lemma PrecedeExtend(first: Segment, g: Shape, last: Segment)
    requires ValidShape(g) && first.kind != StarStar
    ensures ValidShape(Precede(first, g)) && Extend(Precede(first, g), last) == Precede(first, Extend(g, last))
  {
    var x := if first.kind == Star then "*" else FoldedText(first);
    var y := if last.kind == Star then "*" else FoldedText(last);
    assert ([x] + g.prefix) + [y] == [x] + (g.prefix + [y]);
    assert forall a: bool, b: bool :: ([a] + g.star) + [b] == [a] + (g.star + [b]);
  }

  lemma {:induction false} ShapeOfTail(segments: seq<Segment>)
    requires segments != [] && StarStarOnlyLast(segments)
    ensures ShapeOf(segments) == Precede(segments[0], ShapeOf(segments[1..]))
    decreases |segments|
  {
    var n := |segments| - 1;
    if n == 0 {
      assert segments[..0] == [] && segments[1..] == [];
    } else {
      ShapeOfTail(segments[..n]);
      assert segments[..n][1..] == segments[1..][..n - 1];
      assert segments[1..][n - 1] == segments[n];
      PrecedeExtend(segments[0], ShapeOf(segments[..n][1..]), segments[n]);
    }
  }

  /** The glob language is the language of its shape. */
  lemma {:induction false} GlobMatchesShape(segments: seq<Segment>, p: seq<string>)
    requires StarStarOnlyLast(segments)
    ensures GlobMatches(segments, p) <==> Fits(ShapeOf(segments), p)
    decreases |segments|
  {
    if segments != [] {
      ShapeOfTail(segments);
      if segments[0].kind != StarStar && p != [] {
        GlobMatchesShape(segments[1..], p[1..]);
        FitsTail(ShapeOf(segments), ShapeOf(segments[1..]), p);
      }
    }
  }

  lemma FitsTail(g: Shape, tail: Shape, p: seq<string>)
    requires ValidShape(g) && ValidShape(tail) && p != []
    requires g.prefix != [] && g.prefix[1..] == tail.prefix && g.star[1..] == tail.star && g.open == tail.open
    ensures Fits(g, p) <==> (g.star[0] || g.prefix[0] == p[0]) && Fits(tail, p[1..])
  {
    if (g.star[0] || g.prefix[0] == p[0]) && Fits(tail, p[1..]) {
      forall i | 0 <= i < |g.prefix| ensures g.star[i] || g.prefix[i] == p[i] {
        if i > 0 { assert tail.star[i - 1] || tail.prefix[i - 1] == p[1..][i - 1]; }
      }
    }
    if Fits(g, p) {
      forall i | 0 <= i < |tail.prefix| ensures tail.star[i] || tail.prefix[i] == p[1..][i] {
        assert g.star[i + 1] || g.prefix[i + 1] == p[i + 1];
      }
    }
  }

  /** Every path resource covers exactly what fits its shape. */
  lemma CoversShape(r: Normalized, p: seq<string>)
    requires WellFormed(r) && r.kind != Logical
    ensures Covers(r, PathTarget(p)) <==> Fits(ShapeFor(r), p)
  {
    if r.kind == Glob { GlobMatchesShape(r.segments, p); }
  }

  // ---------------------------------------------------------------- deciding intersection

  /** A path in both languages, position by position: a literal of either side, or any segment. */
  function Witness(g: Shape, h: Shape): (p: seq<string>)
    requires ValidShape(g) && ValidShape(h)
    ensures p != []
  {
    var n := if |g.prefix| < |h.prefix| then |h.prefix| else |g.prefix|;
    if n == 0 then ["a"]
    else
      seq(n, i requires 0 <= i < n =>
        if i < |g.prefix| && !g.star[i] then g.prefix[i]
        else if i < |h.prefix| && !h.star[i] then h.prefix[i] else "a")
  }

  lemma WitnessReal(g: Shape, h: Shape)
    requires ValidShape(g) && ValidShape(h) && RealShape(g) && RealShape(h)
    ensures RealPath(Witness(g, h))
  {
    assert AsciiFold("a") == "a";
  }

  /** The finite comparison is exact. */
  lemma IntersectExact(g: Shape, h: Shape)
    requires ValidShape(g) && ValidShape(h) && RealShape(g) && RealShape(h)
    ensures Intersect(g, h) <==> exists p :: RealPath(p) && Fits(g, p) && Fits(h, p)
  {
    if Intersect(g, h) {
      var p := Witness(g, h);
      WitnessReal(g, h);
      assert Fits(g, p) && Fits(h, p);
    }
    if p :| RealPath(p) && Fits(g, p) && Fits(h, p) {
      forall i | 0 <= i < |g.prefix| && i < |h.prefix|
        ensures g.star[i] || h.star[i] || g.prefix[i] == h.prefix[i]
      {
        assert g.star[i] || g.prefix[i] == p[i];
      }
    }
  }

  lemma FoldText(s: string)
    requires SegmentText(s)
    ensures SegmentText(AsciiFold(s)) && AsciiFold(AsciiFold(s)) == AsciiFold(s)
  {
    var f := AsciiFold(s);
    forall c | c in f ensures c != '/' && c != '\\' && !IsUpper(c) {
      var i :| 0 <= i < |f| && f[i] == c;
      assert s[i] in s;
    }
    assert AsciiFold(f) == f;
    FoldedDots(s);
  }

  lemma FoldedDots(s: string)
    ensures AsciiFold(s) == "." ==> s == "."
    ensures AsciiFold(s) == ".." ==> s == ".."
  {
    var f := AsciiFold(s);
    if f == "." { assert f[0] == FoldChar(s[0]); }
    if f == ".." { assert f[0] == FoldChar(s[0]) && f[1] == FoldChar(s[1]); }
  }

  lemma {:induction false} GlobShapeReal(segments: seq<Segment>)
    requires segments != [] && forall s | s in segments :: WellFormedSegment(s, Glob)
    ensures RealShape(ShapeOf(segments))
  {
    var n := |segments| - 1;
    assert segments[n] in segments;
    FoldText(segments[n].text);
    if n > 0 {
      assert forall s | s in segments[..n] :: s in segments;
      GlobShapeReal(segments[..n]);
    } else {
      assert segments[..0] == [];
    }
  }

  lemma ShapeReal(r: Normalized)
    requires WellFormed(r) && r.kind != Logical
    ensures RealShape(ShapeFor(r))
  {
    if r.kind == Glob {
      GlobShapeReal(r.segments);
    } else {
      forall i | 0 <= i < |r.segments| ensures SegmentText(Folded(r)[i]) && AsciiFold(Folded(r)[i]) == Folded(r)[i] {
        assert r.segments[i] in r.segments;
        FoldText(r.segments[i].text);
      }
    }
  }

  /** Path resources overlap exactly when their shapes intersect. */
  lemma MeetIsIntersect(a: Normalized, b: Normalized)
    requires WellFormed(a) && WellFormed(b) && a.kind != Logical && b.kind != Logical
    ensures Meet(a, b) <==> Intersect(ShapeFor(a), ShapeFor(b))
  {
    var g, h := ShapeFor(a), ShapeFor(b);
    ShapeReal(a);
    ShapeReal(b);
    IntersectExact(g, h);
    if Intersect(g, h) {
      var p :| RealPath(p) && Fits(g, p) && Fits(h, p);
      CoversShape(a, p);
      CoversShape(b, p);
      assert RealTarget(PathTarget(p));
    }
    if t :| RealTarget(t) && Covers(a, t) && Covers(b, t) {
      CoversShape(a, t.path);
      CoversShape(b, t.path);
    }
  }

  /** A logical resource meets only its equals. */
  lemma MeetLogical(a: Normalized, b: Normalized)
    requires a.kind == Logical || b.kind == Logical
    ensures Meet(a, b) <==> a.kind == b.kind && a.namespace == b.namespace && a.name == b.name
  {
    if a.kind == b.kind && a.namespace == b.namespace && a.name == b.name {
      var t := LogicalTarget(a.namespace, a.name);
      assert RealTarget(t) && Covers(a, t) && Covers(b, t);
    }
  }

  // ---------------------------------------------------------------- the operations

  /** `shapeOf`: the loop that fills the two parallel lists. */
  method BuildShape(segments: seq<Segment>) returns (shape: Shape)
    ensures shape == ShapeOf(segments)
  {
    var prefix: seq<string>, star: seq<bool>, open := [], [], false;
    for i := 0 to |segments|
      invariant Shape(prefix, star, open) == ShapeOf(segments[..i])
    {
      assert segments[..i + 1][..i] == segments[..i];
      match segments[i].kind {
        case StarStar => open := true;
        case Star =>
          prefix := prefix + ["*"];
          star := star + [true];
        case Literal =>
          var text := FoldInPlace(segments[i].text);
          prefix := prefix + [text];
          star := star + [false];
      }
    }
    assert segments[..|segments|] == segments;
    return Shape(prefix, star, open);
  }

  /** `matchesPath`. */
  method MatchesPath(g: Shape, candidate: seq<string>) returns (b: bool)
    requires ValidShape(g)
    ensures b <==> Fits(g, candidate)
  {
    if g.open {
      if |candidate| < |g.prefix| { return false; }
    } else if |candidate| != |g.prefix| {
      return false;
    }
    for i := 0 to |g.prefix|
      invariant forall j | 0 <= j < i :: g.star[j] || g.prefix[j] == candidate[j]
    {
      if !g.star[i] && g.prefix[i] != candidate[i] { return false; }
    }
    return true;
  }

  /** `intersects`: exactly whether some real path fits both shapes. */
  method Intersects(g: Shape, h: Shape) returns (b: bool)
    requires ValidShape(g) && ValidShape(h)
    ensures b <==> Intersect(g, h)
    ensures RealShape(g) && RealShape(h) ==> (b <==> exists p :: RealPath(p) && Fits(g, p) && Fits(h, p))
  {
    if RealShapes(g, h) { IntersectExact(g, h); }
    var shared := |g.prefix|;
    if |h.prefix| < shared { shared := |h.prefix|; }
    for i := 0 to shared
      invariant forall j | 0 <= j < i :: g.star[j] || h.star[j] || g.prefix[j] == h.prefix[j]
    {
      if !g.star[i] && !h.star[i] && g.prefix[i] != h.prefix[i] { return false; }
    }
    if |g.prefix| == |h.prefix| { return true; }
    if |g.prefix| < |h.prefix| { return g.open; }
    return h.open;
  }

  ghost predicate RealShapes(g: Shape, h: Shape)
    requires ValidShape(g) && ValidShape(h)
  {
    RealShape(g) && RealShape(h)
  }

  /** Strict descendants of a directory, as a shape. */
  function BelowShape(dir: seq<string>): (g: Shape)
    ensures ValidShape(g)
  {
    Shape(dir + ["*"], seq(|dir|, _ => false) + [true], true)
  }

  predicate StrictlyBelow(dir: seq<string>, p: seq<string>) { dir < p }

  /** Some strict descendant of the directory fits the shape exactly when shared positions agree and lengths allow. */
  lemma DescendantsExact(g: Shape, dir: seq<string>)
    requires ValidShape(g) && RealShape(g) && RealShape(PlainShape(dir, true))
    ensures Agree(g, PlainShape(dir, true)) && (|g.prefix| > |dir| || g.open)
            <==> exists p :: RealPath(p) && Fits(g, p) && StrictlyBelow(dir, p)
  {
    var h, plain := BelowShape(dir), PlainShape(dir, true);
    forall i | 0 <= i < |dir| ensures !plain.star[i] && plain.prefix[i] == dir[i] {}
    forall i | 0 <= i < |h.prefix| && !h.star[i]
      ensures SegmentText(h.prefix[i]) && AsciiFold(h.prefix[i]) == h.prefix[i]
    {
      assert h.prefix[i] == plain.prefix[i];
    }
    IntersectExact(g, h);
    forall p ensures Fits(h, p) <==> StrictlyBelow(dir, p) { BelowFits(dir, p); }
    assert Intersect(g, h) <==> Agree(g, plain) && (|g.prefix| > |dir| || g.open);
  }

  lemma BelowFits(dir: seq<string>, p: seq<string>)
    ensures Fits(BelowShape(dir), p) <==> StrictlyBelow(dir, p)
  {
    var h := BelowShape(dir);
    if Fits(h, p) {
      forall i | 0 <= i < |dir| ensures dir[i] == p[i] { assert h.star[i] || h.prefix[i] == p[i]; }
    }
  }

  /** `intersectsDescendantsOf`: whether a strict descendant of the directory fits the shape. */
  method IntersectsDescendantsOf(g: Shape, dir: seq<string>) returns (b: bool)
    requires ValidShape(g)
    ensures b <==> Agree(g, PlainShape(dir, true)) && (|g.prefix| > |dir| || g.open)
    ensures RealShape(g) && RealShape(PlainShape(dir, true)) ==>
              (b <==> exists p :: RealPath(p) && Fits(g, p) && StrictlyBelow(dir, p))
  {
    if RealShapes(g, PlainShape(dir, true)) { DescendantsExact(g, dir); }
    var shared := |g.prefix|;
    if |dir| < shared { shared := |dir|; }
    for i := 0 to shared
      invariant forall j | 0 <= j < i :: g.star[j] || g.prefix[j] == dir[j]
    {
      if !g.star[i] && g.prefix[i] != dir[i] { return false; }
    }
    if |g.prefix| > |dir| { return true; }
    return g.open;
  }

  /** `isPrefixOrEqual`. */
  method IsPrefixOrEqual(prefix: seq<string>, candidate: seq<string>) returns (b: bool)
    ensures b <==> prefix <= candidate
  {
    if |prefix| > |candidate| { return false; }
    for i := 0 to |prefix|
      invariant prefix[..i] == candidate[..i]
    {
      if prefix[i] != candidate[i] { return false; }
    }
    return true;
  }

  /** `equalSegments`. */
  method EqualSegments(a: seq<string>, b: seq<string>) returns (equal: bool)
    ensures equal <==> a == b
  {
    if |a| != |b| { return false; }
    for i := 0 to |a|
      invariant a[..i] == b[..i]
    {
      if a[i] != b[i] { return false; }
    }
    assert a[..|a|] == a && b[..|b|] == b;
    return true;
  }

  /** `PreparedOverlap`: a resource with its cached comparison forms. */
  datatype Prepared = Prepared(resource: Normalized, folded: seq<string>, shape: Shape)

  ghost predicate PreparedFor(p: Prepared, r: Normalized) {
    && p.resource == r
    && (r.kind != Logical ==> p.folded == Folded(r))
    && (r.kind == Glob ==> p.shape == ShapeOf(r.segments))
  }

  method PrepareOverlap(resource: Normalized) returns (prepared: Prepared)
    ensures PreparedFor(prepared, resource)
  {
    var folded: seq<string>, shape := [], Shape([], [], false);
    if resource.kind != Logical {
      folded := FoldedSegments(resource.segments);
      assert folded == Folded(resource);
      if resource.kind == Glob { shape := BuildShape(resource.segments); }
    }
    return Prepared(resource, folded, shape);
  }

  predicate HasFirstLiteral(r: Normalized) { r.segments != [] && r.segments[0].kind == Literal }

  /** Resources that begin with different literals share no path. */
  lemma FirstLiteralShortcut(a: Normalized, b: Normalized)
    requires WellFormed(a) && WellFormed(b) && a.kind != Logical && b.kind != Logical
    requires HasFirstLiteral(a) && HasFirstLiteral(b) && Folded(a)[0] != Folded(b)[0]
    ensures !Meet(a, b)
  {
    MeetIsIntersect(a, b);
    FirstOfShape(a);
    FirstOfShape(b);
  }

  lemma FirstOfShape(r: Normalized)
    requires WellFormed(r) && r.kind != Logical && HasFirstLiteral(r)
    ensures var g := ShapeFor(r); g.prefix != [] && !g.star[0] && g.prefix[0] == Folded(r)[0]
  {
    if r.kind == Glob { ShapeOfTail(r.segments); }
  }

  /** The case split by kind: each cell of the table decides shape intersection. */
  method CompareKinds(p: Prepared, q: Prepared) returns (b: bool)
    requires WellFormed(p.resource) && WellFormed(q.resource)
    requires p.resource.kind != Logical && q.resource.kind != Logical
    requires PreparedFor(p, p.resource) && PreparedFor(q, q.resource)
    ensures b <==> Intersect(ShapeFor(p.resource), ShapeFor(q.resource))
  {
    match (p.resource.kind, q.resource.kind)
    case (File, File) =>
      b := EqualSegments(p.folded, q.folded);
    case (Directory, Directory) =>
      b := IsPrefixOrEqual(p.folded, q.folded);
      if !b { b := IsPrefixOrEqual(q.folded, p.folded); }
    case (Directory, File) =>
      b := IsPrefixOrEqual(p.folded, q.folded);
    case (File, Directory) =>
      b := IsPrefixOrEqual(q.folded, p.folded);
    case (Glob, Glob) =>
      b := Intersects(p.shape, q.shape);
    case (File, Glob) =>
      b := MatchesPath(q.shape, p.folded);
    case (Glob, File) =>
      b := MatchesPath(p.shape, q.folded);
    case (Directory, Glob) =>
      b := MatchesPath(q.shape, p.folded);
      if !b { b := IntersectsDescendantsOf(q.shape, p.folded); }
    case (Glob, Directory) =>
      b := MatchesPath(p.shape, q.folded);
      if !b { b := IntersectsDescendantsOf(p.shape, q.folded); }
  }

  /** `PreparedOverlap.Overlaps`: exactly whether the languages meet. */
  method PreparedOverlaps(p: Prepared, q: Prepared) returns (b: bool)
    requires WellFormed(p.resource) && WellFormed(q.resource)
    requires PreparedFor(p, p.resource) && PreparedFor(q, q.resource)
    ensures b <==> Meet(p.resource, q.resource)
  {
    var x, y := p.resource, q.resource;
    if x.kind == Logical || y.kind == Logical {
      MeetLogical(x, y);
      return x.kind == y.kind && x.namespace == y.namespace && x.name == y.name;
    }
    if HasFirstLiteral(x) && HasFirstLiteral(y) && p.folded[0] != q.folded[0] {
      FirstLiteralShortcut(x, y);
      return false;
    }
    MeetIsIntersect(x, y);
    b := CompareKinds(p, q);
  }

  /** `Overlaps`. */
  method Overlaps(a: Normalized, b: Normalized) returns (overlap: bool)
    requires WellFormed(a) && WellFormed(b)
    ensures overlap <==> Meet(a, b)
  {
    var p := PrepareOverlap(a);
    var q := PrepareOverlap(b);
    overlap := PreparedOverlaps(p, q);
  }

  /** No resource has an empty language: it overlaps itself. */
  lemma OverlapsReflexive(r: Normalized)
    requires WellFormed(r)
    ensures Meet(r, r)
  {
    if r.kind == Logical { MeetLogical(r, r); } else { MeetIsIntersect(r, r); }
  }

  // ---------------------------------------------------------------- keys and languages

  lemma ColonSplit(a: string, b: string, c: string, d: string)
    requires ':' !in a && ':' !in c && a + ":" + b == c + ":" + d
    ensures a == c && b == d
  {
    var s := a + ":" + b;
    assert forall i | 0 <= i < |a| :: s[i] == a[i] && a[i] in a;
    assert forall i | 0 <= i < |c| :: s[i] == c[i] && c[i] in c;
    assert s[|a|] == ':' && s[|c|] == ':';
    assert a == s[..|a|] == c;
    assert b == s[|a| + 1..] == d;
  }

  lemma FoldedParts(r: Normalized)
    requires WellFormed(r) && r.kind != Logical
    ensures Folded(r) != [] && forall p | p in Folded(r) :: '/' !in p
  {
    forall i | 0 <= i < |r.segments| ensures '/' !in Folded(r)[i] {
      assert r.segments[i] in r.segments;
      FoldText(r.segments[i].text);
    }
  }

  /** Equal keys of path resources are equal comparison forms. */
  lemma SameKeySameFolded(a: Normalized, b: Normalized)
    requires WellFormed(a) && WellFormed(b) && a.kind == b.kind != Logical && Key(a) == Key(b)
    ensures Folded(a) == Folded(b)
  {
    var name := KindName(a.kind) + ":";
    assert Join(Folded(a)) == Key(a)[|name|..] == Key(b)[|name|..] == Join(Folded(b));
    FoldedParts(a);
    FoldedParts(b);
    SplitJoin(Folded(a));
    SplitJoin(Folded(b));
  }

  /** A glob literal never folds to a wildcard, so the folded text tells the kinds apart. */
  lemma FoldedTellsKind(s: Segment, t: Segment)
    requires WellFormedSegment(s, Glob) && WellFormedSegment(t, Glob) && FoldedText(s) == FoldedText(t)
    ensures s.kind == t.kind
  {
    LiteralIsNoWildcard(s);
    LiteralIsNoWildcard(t);
  }

  lemma LiteralIsNoWildcard(s: Segment)
    requires WellFormedSegment(s, Glob)
    ensures s.kind == Literal ==> FoldedText(s) != "*" && FoldedText(s) != "**"
  {
    if s.kind == Literal && s.text != "" {
      assert s.text[0] in s.text && s.text[0] != '*';
      assert FoldedText(s)[0] == FoldChar(s.text[0]);
    }
  }

  lemma {:induction false} SameFoldedSameMatches(s: seq<Segment>, t: seq<Segment>, p: seq<string>)
    requires |s| == |t| && forall i | 0 <= i < |s| ::
      WellFormedSegment(s[i], Glob) && WellFormedSegment(t[i], Glob) && FoldedText(s[i]) == FoldedText(t[i])
    ensures GlobMatches(s, p) == GlobMatches(t, p)
  {
    if s != [] {
      FoldedTellsKind(s[0], t[0]);
      if p != [] { SameFoldedSameMatches(s[1..], t[1..], p[1..]); }
    }
  }

  /** Within one kind, equal keys mean equal languages. */
  lemma SameKeySameLanguage(a: Normalized, b: Normalized, t: Target)
    requires WellFormed(a) && WellFormed(b) && a.kind == b.kind && Key(a) == Key(b)
    ensures Covers(a, t) <==> Covers(b, t)
  {
    if a.kind == Logical {
      ColonSplit(a.namespace, a.name, b.namespace, b.name);
    } else {
      SameKeySameFolded(a, b);
      if a.kind == Glob && t.PathTarget? {
        forall i | 0 <= i < |a.segments|
          ensures WellFormedSegment(a.segments[i], Glob) && WellFormedSegment(b.segments[i], Glob)
                  && FoldedText(a.segments[i]) == FoldedText(b.segments[i])
        {
          assert a.segments[i] in a.segments && b.segments[i] in b.segments;
          assert Folded(a)[i] == Folded(b)[i];
        }
        SameFoldedSameMatches(a.segments, b.segments, t.path);
      }
    }
  }
}
