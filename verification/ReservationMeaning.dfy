/**
 Overlap in the terms of a caller's paths: two resources overlap exactly when some path, in whatever
 case it is written, is named by both.
 */
module ReservationMeaning {
  import opened ReservationInputs
  import opened ReservationOverlap
  import opened Reservations

  /** A path as a caller may write it: names without separators, none of them "." or "..". */
  ghost predicate NamesPath(p: seq<string>) {
    p != [] && forall i | 0 <= i < |p| :: IsName(p[i])
  }

  ghost predicate IsName(s: string) {
    s != "" && s != "." && s != ".." && forall c | c in s :: c != '/' && c != '\\'
  }

  /** The names, up to case, one by one; `*` in a glob stands for any one name. */
  ghost predicate NameFits(text: string, kind: Kind, name: string) {
    (kind == Glob && text == "*") || SameUpToCase(name, text)
  }

  ghost predicate NamesFit(texts: seq<string>, n: nat, kind: Kind, p: seq<string>)
    requires n <= |texts|
  {
    n <= |p| && forall i | 0 <= i < n :: NameFits(texts[i], kind, p[i])
  }

  /** A glob that ends in `**` matches whatever follows the rest. */
  ghost predicate EndsOpen(texts: seq<string>) { texts != [] && texts[|texts| - 1] == "**" }

  /** The paths a resource is about: a file that path, a directory everything from it down, a glob its matches. */
  ghost predicate Matches(kind: Kind, texts: seq<string>, p: seq<string>) {
    match kind
    case File => |p| == |texts| && NamesFit(texts, |texts|, kind, p)
    case Directory => NamesFit(texts, |texts|, kind, p)
    case Glob =>
      if EndsOpen(texts) then NamesFit(texts, |texts| - 1, kind, p)
      else |p| == |texts| && NamesFit(texts, |texts|, kind, p)
    case _ => false
  }

  function FoldPath(p: seq<string>): (q: seq<string>)
    ensures |q| == |p| && forall i | 0 <= i < |p| :: q[i] == AsciiFold(p[i])
  {
    seq(|p|, i requires 0 <= i < |p| => AsciiFold(p[i]))
  }

  lemma NameExact(s: string)
    ensures IsName(s) <==> SegmentText(s)
  {
  }

  lemma FoldReal(p: seq<string>)
    requires NamesPath(p)
    ensures RealPath(FoldPath(p))
  {
    var q := FoldPath(p);
    forall s | s in q ensures SegmentText(s) && AsciiFold(s) == s {
      var i :| 0 <= i < |q| && q[i] == s;
      NameExact(p[i]);
      FoldText(p[i]);
    }
  }

  lemma RealNames(p: seq<string>)
    requires RealPath(p)
    ensures NamesPath(p) && FoldPath(p) == p
  {
    forall i | 0 <= i < |p| ensures IsName(p[i]) && AsciiFold(p[i]) == p[i] {
      assert p[i] in p;
      NameExact(p[i]);
    }
  }

  lemma SegmentFits(s: Segment, kind: Kind, name: string)
    requires WellFormedSegment(s, kind) && s.kind != StarStar
    ensures NameFits(s.text, kind, name) <==> s.kind == Star || AsciiFold(name) == FoldedText(s)
  {
    FoldExact(name, s.text);
  }

  lemma PlainSegment(s: Segment, kind: Kind)
    requires WellFormedSegment(s, kind) && kind != Glob
    ensures s.kind == Literal
  {
  }

  lemma {:induction false} GlobExact(segments: seq<Segment>, p: seq<string>)
    requires StarStarOnlyLast(segments) && forall s | s in segments :: WellFormedSegment(s, Glob)
    ensures GlobMatches(segments, FoldPath(p)) <==> Matches(Glob, Texts(segments), p)
  {
    var texts := Texts(segments);
    if segments != [] {
      assert segments[0] in segments;
      if segments[0].kind != StarStar && p != [] {
        SegmentFits(segments[0], Glob, p[0]);
        GlobExact(segments[1..], p[1..]);
        assert FoldPath(p)[1..] == FoldPath(p[1..]) && Texts(segments[1..]) == texts[1..];
        GlobStep(texts, p);
      }
    }
  }

  lemma GlobStep(texts: seq<string>, p: seq<string>)
    requires texts != [] && p != [] && texts[0] != "**"
    ensures Matches(Glob, texts, p) <==> NameFits(texts[0], Glob, p[0]) && Matches(Glob, texts[1..], p[1..])
  {
    hide NameFits;
    var n := if EndsOpen(texts) then |texts| - 1 else |texts|;
    assert forall i | 0 < i < n && i < |p| :: texts[i] == texts[1..][i - 1] && p[i] == p[1..][i - 1];
    assert forall i | 0 <= i < n - 1 && i < |p| - 1 :: texts[1..][i] == texts[i + 1] && p[1..][i] == p[i + 1];
  }

  lemma PlainExact(r: Normalized, p: seq<string>, n: nat)
    requires WellFormed(r) && (r.kind == File || r.kind == Directory) && n <= |r.segments| && n <= |p|
    ensures NamesFit(Texts(r.segments), n, r.kind, p) <==> forall i | 0 <= i < n :: FoldPath(p)[i] == Folded(r)[i]
  {
    hide NameFits, FoldedText, WellFormedSegment;
    var texts, q, f := Texts(r.segments), FoldPath(p), Folded(r);
    forall i | 0 <= i < n ensures NameFits(texts[i], r.kind, p[i]) <==> q[i] == f[i] {
      assert r.segments[i] in r.segments;
      PlainSegment(r.segments[i], r.kind);
      SegmentFits(r.segments[i], r.kind, p[i]);
    }
    if forall i | 0 <= i < n :: q[i] == f[i] {
      forall i | 0 <= i < n ensures NameFits(texts[i], r.kind, p[i]) { assert q[i] == f[i]; }
    }
  }

  lemma TooShort(texts: seq<string>, n: nat, kind: Kind, p: seq<string>)
    requires |p| < n <= |texts|
    ensures !NamesFit(texts, n, kind, p)
  {
  }

  /** What the comparison form covers is what the resource is about, in any case. */
  lemma CoversExact(r: Normalized, p: seq<string>)
    requires WellFormed(r) && r.kind != Logical
    ensures Covers(r, PathTarget(FoldPath(p))) <==> Matches(r.kind, Texts(r.segments), p)
  {
    hide GlobMatches, NamesFit, WellFormedSegment;
    if r.kind == Glob {
      GlobExact(r.segments, p);
    } else if |r.segments| <= |p| {
      PlainExact(r, p, |r.segments|);
      var q, f := FoldPath(p), Folded(r);
      assert f <= q <==> forall i | 0 <= i < |f| :: q[i] == f[i];
    } else {
      TooShort(Texts(r.segments), |r.segments|, r.kind, p);
    }
  }

  /** `p` is named by both. */
  ghost predicate Shared(a: Normalized, b: Normalized, p: seq<string>) {
    NamesPath(p) && Matches(a.kind, Texts(a.segments), p) && Matches(b.kind, Texts(b.segments), p)
  }

  /** Two path resources overlap exactly when some path, however it is written, is named by both. */
  lemma MeetsOnPath(a: Normalized, b: Normalized)
    requires WellFormed(a) && WellFormed(b) && a.kind != Logical && b.kind != Logical
    ensures Meet(a, b) <==> exists p :: Shared(a, b, p)
  {
    hide Covers, Matches, NamesPath, RealPath, WellFormed;
    if Meet(a, b) {
      var t :| RealTarget(t) && Covers(a, t) && Covers(b, t);
      PathOnly(a, t);
      RealNames(t.path);
      CoversExact(a, t.path);
      CoversExact(b, t.path);
      assert Shared(a, b, t.path);
    }
    if p :| Shared(a, b, p) {
      FoldReal(p);
      CoversExact(a, p);
      CoversExact(b, p);
      assert RealTarget(PathTarget(FoldPath(p)));
    }
  }

  lemma PathOnly(r: Normalized, t: Target)
    requires r.kind != Logical && Covers(r, t)
    ensures t.PathTarget?
  {
  }
}
