/**
 How far the comparison key is canonical: within one kind, two resources denote the same language
 exactly when their keys agree, but for the two ways of writing "any path".
 */
module ReservationKeys {
  import opened Reservations
  import opened ReservationOverlap

  ghost predicate SameLanguage(a: Normalized, b: Normalized) {
    forall t | RealTarget(t) :: Covers(a, t) <==> Covers(b, t)
  }

  // ---------------------------------------------------------------- paths that tell shapes apart

  ghost predicate RealSegment(s: string) { SegmentText(s) && AsciiFold(s) == s }

  /** A path of `n` segments: the literals of the shape, and `filler` everywhere else. */
  function Fill(g: Shape, n: nat, filler: string): (p: seq<string>)
    requires ValidShape(g)
  {
    seq(n, i requires 0 <= i < n => if i < |g.prefix| && !g.star[i] then g.prefix[i] else filler)
  }

  lemma FillFits(g: Shape, n: nat, filler: string)
    requires ValidShape(g) && RealShape(g) && RealSegment(filler)
    requires n > 0 && |g.prefix| <= n && (g.open || n == |g.prefix|)
    ensures RealPath(Fill(g, n, filler)) && Fits(g, Fill(g, n, filler))
  {
  }

  lemma Letters()
    ensures RealSegment("a") && RealSegment("b")
  {
    assert AsciiFold("a") == "a" && AsciiFold("b") == "b";
  }

  ghost predicate SameFits(g: Shape, h: Shape)
    requires ValidShape(g) && ValidShape(h)
  {
    forall p | RealPath(p) :: Fits(g, p) <==> Fits(h, p)
  }

  /** Real paths have at least one segment, so only an empty and a one-segment prefix can be confused. */
  function Shortest(g: Shape): nat { if |g.prefix| > 0 then |g.prefix| else 1 }

  lemma LengthsAgree(g: Shape, h: Shape)
    requires ValidShape(g) && ValidShape(h) && RealShape(g) && RealShape(h) && SameFits(g, h)
    ensures |h.prefix| <= Shortest(g) && (g.open ==> h.open)
  {
    Letters();
    FillFits(g, Shortest(g), "a");
    if g.open {
      var n := Shortest(g) + |h.prefix| + 1;
      FillFits(g, n, "a");
      assert Fits(h, Fill(g, n, "a"));
    }
  }

  /** A literal of one shape is the same literal of the other. */
  lemma LiteralsAgree(g: Shape, h: Shape, i: nat)
    requires ValidShape(g) && ValidShape(h) && RealShape(g) && RealShape(h) && SameFits(g, h)
    requires i < |h.prefix| && !h.star[i]
    ensures i < |g.prefix| && !g.star[i] && g.prefix[i] == h.prefix[i]
  {
    Letters();
    LengthsAgree(g, h);
    var filler := if h.prefix[i] == "a" then "b" else "a";
    var p := Fill(g, Shortest(g), filler);
    FillFits(g, Shortest(g), filler);
    assert Fits(h, p) && p[i] == h.prefix[i];
  }

  /** In a glob's shape a wildcard position is written "*". */
  ghost predicate StarsMarked(g: Shape)
    requires ValidShape(g)
  {
    forall i | 0 <= i < |g.prefix| && g.star[i] :: g.prefix[i] == "*"
  }

  const ANY_PATH := Shape([], [], true)
  const ANY_PATH_LONGER := Shape(["*"], [true], true)

  lemma SameFitsSameShape(g: Shape, h: Shape)
    requires ValidShape(g) && ValidShape(h) && RealShape(g) && RealShape(h)
    requires StarsMarked(g) && StarsMarked(h) && SameFits(g, h) && |g.prefix| <= |h.prefix|
    ensures g == h || (g == ANY_PATH && h == ANY_PATH_LONGER)
  {
    LengthsAgree(g, h);
    LengthsAgree(h, g);
    forall i | 0 <= i < |h.prefix| && !h.star[i]
      ensures i < |g.prefix| && !g.star[i] && g.prefix[i] == h.prefix[i]
    {
      LiteralsAgree(g, h, i);
    }
    forall i | 0 <= i < |g.prefix| && !g.star[i] ensures !h.star[i] { LiteralsAgree(h, g, i); }
    if |g.prefix| == |h.prefix| {
      assert g.prefix == h.prefix && g.star == h.star;
    } else {
      assert h.prefix == ["*"] && h.star == [true];
    }
  }

  // ---------------------------------------------------------------- from shapes back to keys

  function Spelled(g: Shape): seq<string> { g.prefix + if g.open then ["**"] else [] }

  lemma SpellExtend(g: Shape, s: Segment)
    requires ValidShape(g) && !g.open && StarsMarked(g) && WellFormedSegment(s, Glob)
    ensures var r := Extend(g, s);
            Spelled(r) == Spelled(g) + [FoldedText(s)] && StarsMarked(r) && (r.open <==> s.kind == StarStar)
  {
  }

  lemma {:induction false} ShapeSpells(segments: seq<Segment>, folded: seq<string>)
    requires StarStarOnlyLast(segments) && forall i | 0 <= i < |segments| :: WellFormedSegment(segments[i], Glob)
    requires |folded| == |segments| && forall i | 0 <= i < |folded| :: folded[i] == FoldedText(segments[i])
    ensures Spelled(ShapeOf(segments)) == folded && StarsMarked(ShapeOf(segments))
    ensures ShapeOf(segments).open <==> segments != [] && segments[|segments| - 1].kind == StarStar
  {
    if segments != [] {
      var n := |segments| - 1;
      ShapeSpells(segments[..n], folded[..n]);
      SpellExtend(ShapeOf(segments[..n]), segments[n]);
      assert folded == folded[..n] + [folded[n]];
    }
  }

  lemma FoldedIsSpelled(r: Normalized)
    requires WellFormed(r) && r.kind == Glob
    ensures Folded(r) == Spelled(ShapeFor(r)) && StarsMarked(ShapeFor(r))
  {
    forall i | 0 <= i < |r.segments| ensures WellFormedSegment(r.segments[i], Glob) {
      assert r.segments[i] in r.segments;
    }
    ShapeSpells(r.segments, Folded(r));
  }

  lemma LanguageIsShape(a: Normalized, b: Normalized)
    requires WellFormed(a) && WellFormed(b) && a.kind != Logical && b.kind != Logical
    ensures SameLanguage(a, b) <==> SameFits(ShapeFor(a), ShapeFor(b))
  {
    forall p ensures Covers(a, PathTarget(p)) <==> Fits(ShapeFor(a), p) { CoversShape(a, p); }
    forall p ensures Covers(b, PathTarget(p)) <==> Fits(ShapeFor(b), p) { CoversShape(b, p); }
    if SameLanguage(a, b) {
      forall p | RealPath(p) ensures Fits(ShapeFor(a), p) <==> Fits(ShapeFor(b), p) {
        assert RealTarget(PathTarget(p));
      }
    }
  }

  /** The folded texts of the two globs that match every path. */
  ghost predicate AnyPathPair(a: Normalized, b: Normalized) {
    a.kind == Glob && b.kind == Glob && {Folded(a), Folded(b)} == {["**"], ["*", "**"]}
  }

  lemma SameShapeOrPair(a: Normalized, b: Normalized)
    requires WellFormed(a) && WellFormed(b) && a.kind == b.kind == Glob
    requires SameLanguage(a, b) && |ShapeFor(a).prefix| <= |ShapeFor(b).prefix|
    ensures Folded(a) == Folded(b) || AnyPathPair(a, b)
  {
    var g, h := ShapeFor(a), ShapeFor(b);
    ShapeReal(a);
    ShapeReal(b);
    LanguageIsShape(a, b);
    FoldedIsSpelled(a);
    FoldedIsSpelled(b);
    SameFitsSameShape(g, h);
    if g != h { assert Spelled(ANY_PATH) == ["**"] && Spelled(ANY_PATH_LONGER) == ["*", "**"]; }
  }

  lemma SamePlainShape(a: Normalized, b: Normalized)
    requires WellFormed(a) && WellFormed(b) && a.kind == b.kind && (a.kind == File || a.kind == Directory)
    requires SameLanguage(a, b)
    ensures Folded(a) == Folded(b)
  {
    ShapeReal(a);
    ShapeReal(b);
    LanguageIsShape(a, b);
    var g, h := ShapeFor(a), ShapeFor(b);
    assert g.prefix == Folded(a) != [] && h.prefix == Folded(b) != [];
    if |g.prefix| <= |h.prefix| { SameFitsSameShape(g, h); } else { SameFitsSameShape(h, g); }
  }

  lemma KindOfFolded(r: Normalized, i: nat)
    requires WellFormed(r) && r.kind == Glob && i < |r.segments|
    ensures Folded(r)[i] == "**" ==> r.segments[i].kind == StarStar
    ensures Folded(r)[i] == "*" ==> r.segments[i].kind == Star
  {
    assert r.segments[i] in r.segments;
    LiteralIsNoWildcard(r.segments[i]);
  }

  lemma PairSameLanguage(a: Normalized, b: Normalized)
    requires WellFormed(a) && WellFormed(b) && a.kind == b.kind == Glob
    requires Folded(a) == ["**"] && Folded(b) == ["*", "**"]
    ensures SameLanguage(a, b)
  {
    KindOfFolded(a, 0);
    KindOfFolded(b, 0);
    KindOfFolded(b, 1);
    forall t | RealTarget(t) ensures Covers(a, t) <==> Covers(b, t) {
      if t.PathTarget? {
        assert GlobMatches(a.segments, t.path);
        assert b.segments[1..][0] == b.segments[1] && GlobMatches(b.segments[1..], t.path[1..]);
      }
    }
  }

  lemma SameFoldedSameKey(a: Normalized, b: Normalized)
    requires a.kind == b.kind != Logical
    ensures Folded(a) == Folded(b) ==> Key(a) == Key(b)
  {
  }

  lemma LogicalKeyExact(a: Normalized, b: Normalized)
    requires WellFormed(a) && WellFormed(b) && a.kind == b.kind == Logical
    ensures SameLanguage(a, b) <==> Key(a) == Key(b)
  {
    var t := LogicalTarget(a.namespace, a.name);
    assert RealTarget(t) && Covers(a, t);
    if Key(a) == Key(b) {
      forall t | RealTarget(t) ensures Covers(a, t) <==> Covers(b, t) { SameKeySameLanguage(a, b, t); }
    }
  }

  /**
   The exact condition: two resources of one kind denote the same language if and only if their keys
   are equal, or they are the two globs that match every path.
   */
  lemma KeyExact(a: Normalized, b: Normalized)
    requires WellFormed(a) && WellFormed(b) && a.kind == b.kind
    ensures SameLanguage(a, b) <==> Key(a) == Key(b) || AnyPathPair(a, b)
  {
    if a.kind == Logical {
      LogicalKeyExact(a, b);
    } else {
      SameFoldedSameKey(a, b);
      if SameLanguage(a, b) {
        if a.kind != Glob {
          SamePlainShape(a, b);
        } else if |ShapeFor(a).prefix| <= |ShapeFor(b).prefix| {
          SameShapeOrPair(a, b);
        } else {
          SameShapeOrPair(b, a);
        }
      }
      if Key(a) == Key(b) {
        forall t | RealTarget(t) ensures Covers(a, t) <==> Covers(b, t) { SameKeySameLanguage(a, b, t); }
      }
      if AnyPathPair(a, b) { EitherPair(a, b); }
    }
  }

  lemma EitherPair(a: Normalized, b: Normalized)
    requires WellFormed(a) && WellFormed(b) && AnyPathPair(a, b)
    ensures SameLanguage(a, b)
  {
    assert Folded(a) in {Folded(a), Folded(b)} && Folded(b) in {Folded(a), Folded(b)};
    assert ["**"] in {Folded(a), Folded(b)} && ["*", "**"] in {Folded(a), Folded(b)};
    if Folded(a) == ["**"] { PairSameLanguage(a, b); } else { PairSameLanguage(b, a); }
  }

  lemma AnyPathSplit(path: string, texts: seq<string>)
    requires (path == "**" && texts == ["**"]) || (path == "*/**" && texts == ["*", "**"])
    ensures Split(path) == texts && KeptParts(texts) == texts
  {
    assert Join(["**"]) == "**" && Join(["*", "**"]) == "*/**";
    SplitJoin(texts);
    assert KeptParts(["**"]) == ["**"];
  }

  lemma AnyPathOk(path: string, texts: seq<string>)
    requires (path == "**" && texts == ["**"]) || (path == "*/**" && texts == ["*", "**"])
    ensures var r := Normalize(Resource(Glob, path, "", "")); r.Ok? && Texts(r.value.segments) == texts
  {
    hide Split, Join, KeptParts, Normalize, AllAllowed, PathForm, SegmentsFollow, Texts;
    AnyPathSplit(path, texts);
    AnyPathForm(path, texts);
    PathAccepted(Resource(Glob, path, "", ""));
  }

  lemma AnyPathForm(path: string, texts: seq<string>)
    requires (path == "**" && texts == ["**"]) || (path == "*/**" && texts == ["*", "**"])
    ensures PathForm(path) && AllAllowed(texts, Glob)
  {
  }

  lemma WildcardsFolded(r: Normalized, texts: seq<string>)
    requires WellFormed(r) && r.kind == Glob && Texts(r.segments) == texts
    requires forall i | 0 <= i < |texts| :: texts[i] == "*" || texts[i] == "**"
    ensures Folded(r) == texts
  {
    forall i | 0 <= i < |texts| ensures Folded(r)[i] == texts[i] {
      assert r.segments[i] in r.segments && r.segments[i].text == Texts(r.segments)[i];
    }
  }

  lemma AnyPathAccepted(path: string, texts: seq<string>)
    requires (path == "**" && texts == ["**"]) || (path == "*/**" && texts == ["*", "**"])
    ensures var r := Normalize(Resource(Glob, path, "", ""));
            r.Ok? && WellFormed(r.value) && r.value.kind == Glob && Folded(r.value) == texts
  {
    hide WellFormed, Folded;
    var input := Resource(Glob, path, "", "");
    AnyPathOk(path, texts);
    NormalizeWellFormed(input);
    WildcardsFolded(Normalize(input).value, texts);
  }

  /** The input that shows it: two accepted globs that match the same paths and have different keys. */
  lemma DifferentKeysSameLanguage()
    ensures var x, y := Normalize(Resource(Glob, "**", "", "")), Normalize(Resource(Glob, "*/**", "", ""));
            x.Ok? && y.Ok? && SameLanguage(x.value, y.value) && Key(x.value) != Key(y.value)
  {
    AnyPathAccepted("**", ["**"]);
    AnyPathAccepted("*/**", ["*", "**"]);
    var x, y := Normalize(Resource(Glob, "**", "", "")).value, Normalize(Resource(Glob, "*/**", "", "")).value;
    PairSameLanguage(x, y);
    if Key(x) == Key(y) { SameKeySameFolded(x, y); }
  }

  // ---------------------------------------------------------------- across kinds

  /** A logical resource whose namespace is the name of the path's kind, and whose name is the folded path. */
  ghost predicate NamedLike(l: Normalized, p: Normalized) {
    && l.kind == Logical && p.kind != Logical && l.name == Join(Folded(p))
    && match p.kind
       case File => l.namespace == "file"
       case Directory => l.namespace == "directory"
       case Glob => l.namespace == "glob"
       case _ => false
  }

  lemma FirstColon(s: string, x: string, t: string, y: string)
    requires ':' !in s && ':' !in t && s + ":" + x == t + ":" + y
    ensures s == t && x == y
  {
    var u := s + ":" + x;
    assert u[|s|] == ':' && u[|t|] == ':';
    assert forall i | 0 <= i < |s| :: u[i] == s[i];
    assert forall i | 0 <= i < |t| :: u[i] == t[i];
    assert |s| == |t|;
    assert s == u[..|s|] && t == u[..|t|] && x == u[|s| + 1..] && y == u[|t| + 1..];
  }

  /** What a key begins with, up to the first colon. */
  function Head(r: Normalized): string { if r.kind == Logical then r.namespace else KindName(r.kind) }

  function Tail(r: Normalized): string { if r.kind == Logical then r.name else Join(Folded(r)) }

  lemma KeyParts(a: Normalized, b: Normalized)
    requires WellFormed(a) && WellFormed(b)
    ensures Key(a) == Key(b) <==> Head(a) == Head(b) && Tail(a) == Tail(b)
  {
    hide Join, Folded;
    HeadPlain(a);
    HeadPlain(b);
    if Key(a) == Key(b) { FirstColon(Head(a), Tail(a), Head(b), Tail(b)); }
  }

  lemma HeadPlain(r: Normalized)
    requires WellFormed(r)
    ensures ':' !in Head(r)
  {
  }

  /** Between kinds, keys agree only for a logical resource that is named like a path: its key says nothing of kinds. */
  lemma KeysAcrossKinds(a: Normalized, b: Normalized)
    requires WellFormed(a) && WellFormed(b) && a.kind != b.kind
    ensures Key(a) == Key(b) <==> NamedLike(a, b) || NamedLike(b, a)
  {
    hide Join, Folded;
    KeyParts(a, b);
  }

  lemma OneName(c: char)
    requires 'a' <= c <= 'z'
    ensures Normalize(Resource(File, [c], "", "")).Ok? && Normalize(Resource(Logical, "", "file", [c])).Ok?
    ensures var p := Normalize(Resource(File, [c], "", "")).value;
            var l := Normalize(Resource(Logical, "", "file", [c])).value;
            p.kind == File && l == Normalized(Logical, "file:" + [c], [], "file", [c]) && Folded(p) == [[c]]
  {
    var path := [c];
    SplitSegment(path, "");
    assert [path][1..] == [];
    assert Segments([path], File) == Ok([Segment(Literal, path)] + []);
    assert TrimSpace(path) == path;
    var p := Normalize(Resource(File, path, "", "")).value;
    assert p.segments == [Segment(Literal, path)];
    assert AsciiFold(path) == path;
  }

  /** The input that shows it: the file `x` and the logical resource `x` in the namespace `file` do not conflict. */
  lemma SameKeyOtherKind()
    ensures var p, l := Normalize(Resource(File, "x", "", "")), Normalize(Resource(Logical, "", "file", "x"));
            p.Ok? && l.Ok? && Key(p.value) == Key(l.value) && !Meet(p.value, l.value)
  {
    OneName('x');
    assert ['x'] == "x";
    var p, l := Normalize(Resource(File, "x", "", "")).value, Normalize(Resource(Logical, "", "file", "x")).value;
    assert Join([['x']]) == "x";
    assert forall t :: !(Covers(p, t) && Covers(l, t));
  }
}
