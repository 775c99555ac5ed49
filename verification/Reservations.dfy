/**
 Reservable resources and their normalization: what a caller names, what it becomes, and which forms
 are refused. Text is a sequence of runes.
 */
module Reservations {

  datatype Result<+T> = Ok(value: T) | Err(error: Error)

  datatype Kind = File | Directory | Glob | Logical | Unsupported(name: string)

  datatype Error =
    | InvalidKind | NulNotAllowed | MaxRunes | InvalidNamespace | NameRequired
    | BackslashNotAllowed | AbsolutePath | VolumeForm | ParentSegment | InvalidGlobSegment
    | EmptyRoot | StarStarNotLast

  datatype Resource = Resource(kind: Kind, path: string, namespace: string, name: string)

  datatype SegmentKind = Literal | Star | StarStar

  datatype Segment = Segment(kind: SegmentKind, text: string)

  datatype Normalized = Normalized(
    kind: Kind, display: string, segments: seq<Segment>, namespace: string, name: string)

  const MAX_PATH_RUNES := 4096
  const MAX_NAMESPACE_RUNES := 64
  const MAX_NAME_RUNES := 256

  // ---------------------------------------------------------------- folding

  predicate IsUpper(c: char) { 'A' <= c <= 'Z' }

  function FoldChar(c: char): char {
    if IsUpper(c) then (c as int + ('a' as int - 'A' as int)) as char else c
  }

  /** ASCII case folding; every other character passes through. */
  function AsciiFold(s: string): (r: string)
    ensures |r| == |s| && forall i | 0 <= i < |s| :: r[i] == FoldChar(s[i])
    ensures forall c | c in r :: !IsUpper(c)
  {
    seq(|s|, i requires 0 <= i < |s| => FoldChar(s[i]))
  }

  /** `asciiFold`: untouched when nothing needs folding, otherwise folded in place in a copy. */
  method FoldInPlace(value: string) returns (folded: string)
    ensures folded == AsciiFold(value)
  {
    var hasUpper := false;
    for i := 0 to |value|
      invariant !hasUpper && forall j | 0 <= j < i :: !IsUpper(value[j])
    {
      if IsUpper(value[i]) {
        hasUpper := true;
        break;
      }
    }
    if !hasUpper {
      assert AsciiFold(value) == value;
      return value;
    }
    var bytes := new char[|value|](i requires 0 <= i < |value| => value[i]);
    for i := 0 to bytes.Length
      invariant forall j | 0 <= j < i :: bytes[j] == FoldChar(value[j])
      invariant forall j | i <= j < |value| :: bytes[j] == value[j]
    {
      if IsUpper(bytes[i]) { bytes[i] := FoldChar(bytes[i]); }
    }
    folded := bytes[..];
    assert folded == AsciiFold(value);
  }

  // ---------------------------------------------------------------- paths as segments

  /** `strings.Split(path, "/")`. */
  function Split(s: string): (parts: seq<string>)
    ensures parts != []
    ensures forall p | p in parts :: '/' !in p
  {
    if s == "" then [""]
    else
      var rest := Split(s[1..]);
      if s[0] == '/' then [""] + rest else [[s[0]] + rest[0]] + rest[1..]
  }

  /** `strings.Join(parts, "/")`. */
  function Join(parts: seq<string>): string {
    if parts == [] then "" else if |parts| == 1 then parts[0] else parts[0] + "/" + Join(parts[1..])
  }

  lemma {:induction false} SplitSegment(p: string, rest: string)
    requires '/' !in p
    ensures Split(p) == [p]
    ensures Split(p + "/" + rest) == [p] + Split(rest)
  {
    if p == "" {
      assert ("" + "/" + rest)[1..] == rest;
    } else {
      SplitSegment(p[1..], rest);
      assert (p + "/" + rest)[1..] == p[1..] + "/" + rest;
      assert [p[0]] + p[1..] == p;
    }
  }

  /** Splitting undoes joining when no part holds a slash. */
  lemma {:induction false} SplitJoin(parts: seq<string>)
    requires parts != [] && forall p | p in parts :: '/' !in p
    ensures Split(Join(parts)) == parts
  {
    if |parts| == 1 {
      SplitSegment(parts[0], "");
    } else {
      SplitSegment(parts[0], Join(parts[1..]));
      SplitJoin(parts[1..]);
    }
  }

  lemma JoinSlash(rest: seq<string>)
    requires rest != []
    ensures Join([""] + rest) == "/" + Join(rest)
  {
    assert ([""] + rest)[1..] == rest;
  }

  lemma JoinPrepend(c: char, rest: seq<string>)
    requires rest != []
    ensures Join([[c] + rest[0]] + rest[1..]) == [c] + Join(rest)
  {
    var first := [c] + rest[0];
    assert ([first] + rest[1..])[1..] == rest[1..];
    if |rest| > 1 { assert first + "/" + Join(rest[1..]) == [c] + (rest[0] + "/" + Join(rest[1..])); }
  }

  lemma {:induction false} JoinSplit(s: string)
    ensures Join(Split(s)) == s
  {
    if s != "" {
      hide Join;
      JoinSplit(s[1..]);
      JoinSlash(Split(s[1..]));
      JoinPrepend(s[0], Split(s[1..]));
      assert s == [s[0]] + s[1..];
    }
  }

  // ---------------------------------------------------------------- glob segments

  predicate HasGlobMeta(text: string) { exists c | c in text :: c in "*?[]{}\\" }

  /** `classifyGlobSegment`. */
  function Classify(text: string, kind: Kind): Result<Segment> {
    if kind != Glob then Ok(Segment(Literal, text))
    else if text == "*" then Ok(Segment(Star, "*"))
    else if text == "**" then Ok(Segment(StarStar, "**"))
    else if HasGlobMeta(text) then Err(InvalidGlobSegment)
    else Ok(Segment(Literal, text))
  }

  /** `validateStarStarPlacement`. */
  predicate StarStarOnlyLast(segments: seq<Segment>) {
    forall i | 0 <= i < |segments| - 1 :: segments[i].kind != StarStar
  }

  predicate Dropped(part: string) { part == "" || part == "." }

  /** The loop of `normalizePath`, part by part. */
  function Segments(parts: seq<string>, kind: Kind): Result<seq<Segment>> {
    if parts == [] then Ok([])
    else if Dropped(parts[0]) then Segments(parts[1..], kind)
    else if parts[0] == ".." then Err(ParentSegment)
    else
      match Classify(parts[0], kind)
      case Err(error) => Err(error)
      case Ok(segment) =>
        match Segments(parts[1..], kind)
        case Err(error) => Err(error)
        case Ok(rest) => Ok([segment] + rest)
  }

  function Texts(segments: seq<Segment>): (texts: seq<string>)
    ensures |texts| == |segments| && forall i | 0 <= i < |segments| :: texts[i] == segments[i].text
  {
    seq(|segments|, i requires 0 <= i < |segments| => segments[i].text)
  }

  predicate IsVolumeForm(path: string) {
    |path| >= 2 && path[1] == ':' && ('A' <= path[0] <= 'Z' || 'a' <= path[0] <= 'z')
  }

  /** The checks on the whole path, in order; the first is `ValidateText`. */
  function CheckPath(path: string): Result<()> {
    if '\0' in path then Err(NulNotAllowed)
    else if |path| > MAX_PATH_RUNES then Err(MaxRunes)
    else if '\\' in path then Err(BackslashNotAllowed)
    else if path != "" && path[0] == '/' then Err(AbsolutePath)
    else if IsVolumeForm(path) then Err(VolumeForm)
    else Ok(())
  }

  function NormalizePath(input: Resource): Result<Normalized> {
    match CheckPath(input.path)
    case Err(error) => Err(error)
    case Ok(_) =>
      match Segments(Split(input.path), input.kind)
      case Err(error) => Err(error)
      case Ok(segments) =>
        if segments == [] then Err(EmptyRoot)
        else if input.kind == Glob && !StarStarOnlyLast(segments) then Err(StarStarNotLast)
        else Ok(Normalized(input.kind, Join(Texts(segments)), segments, "", ""))
  }

  // ---------------------------------------------------------------- logical resources

  predicate NamespaceChar(c: char, first: bool) {
    'a' <= c <= 'z' || (!first && ('0' <= c <= '9' || c == '.' || c == '-'))
  }

  predicate ValidNamespace(s: string) {
    s != "" && forall i | 0 <= i < |s| :: NamespaceChar(s[i], i == 0)
  }

  /** Unicode white space. */
  predicate IsSpace(c: char) {
    || c in "\t\n\r " || c as int == 0x0B || c as int == 0x0C || c as int == 0x85 || c as int == 0xA0
    || c as int == 0x1680 || 0x2000 <= c as int <= 0x200A || c as int == 0x2028 || c as int == 0x2029
    || c as int == 0x202F || c as int == 0x205F || c as int == 0x3000
  }

  /** `strings.TrimSpace`. */
  function TrimSpace(s: string): (r: string)
    ensures |r| <= |s|
    ensures r == "" || (!IsSpace(r[0]) && !IsSpace(r[|r| - 1]))
  {
    if s == "" then ""
    else if IsSpace(s[0]) then TrimSpace(s[1..])
    else if IsSpace(s[|s| - 1]) then TrimSpace(s[..|s| - 1])
    else s
  }

  function NormalizeLogical(input: Resource): Result<Normalized> {
    var name := TrimSpace(input.name);
    if '\0' in input.namespace then Err(NulNotAllowed)
    else if |input.namespace| > MAX_NAMESPACE_RUNES then Err(MaxRunes)
    else if !ValidNamespace(input.namespace) then Err(InvalidNamespace)
    else if '\0' in name then Err(NulNotAllowed)
    else if |name| > MAX_NAME_RUNES then Err(MaxRunes)
    else if name == "" then Err(NameRequired)
    else Ok(Normalized(Logical, input.namespace + ":" + name, [], input.namespace, name))
  }

  /** `Normalize`. */
  function Normalize(input: Resource): Result<Normalized> {
    if input.kind.Unsupported? then Err(InvalidKind)
    else if input.kind == Logical then NormalizeLogical(input)
    else NormalizePath(input)
  }

  // ---------------------------------------------------------------- what normalization yields

  /** A path segment as typed: never empty, ".", "..", nor containing a separator. */
  predicate SegmentText(text: string) {
    text != "" && text != "." && text != ".." && '/' !in text && '\\' !in text
  }

  predicate WellFormedSegment(s: Segment, kind: Kind) {
    && SegmentText(s.text)
    && Classify(s.text, kind) == Ok(s)
  }

  /** The resources `Normalize` constructs. */
  predicate WellFormed(r: Normalized) {
    && !r.kind.Unsupported?
    && if r.kind == Logical then ValidNamespace(r.namespace) && r.segments == []
       else r.segments != [] && StarStarOnlyLast(r.segments)
            && forall s | s in r.segments :: WellFormedSegment(s, r.kind)
  }

  lemma {:induction false} SegmentsWellFormed(parts: seq<string>, kind: Kind)
    requires Segments(parts, kind).Ok? && forall p | p in parts :: '/' !in p && '\\' !in p
    ensures forall s | s in Segments(parts, kind).value :: WellFormedSegment(s, kind)
  {
    if parts != [] {
      SegmentsWellFormed(parts[1..], kind);
      if !Dropped(parts[0]) {
        var first := Classify(parts[0], kind).value;
        assert parts[0] in parts && first.text == parts[0];
        assert forall s | s in Segments(parts, kind).value :: s == first || s in Segments(parts[1..], kind).value;
      }
    }
  }

  lemma {:induction false} SplitKeepsOut(s: string, c: char)
    requires c !in s
    ensures forall p | p in Split(s) :: c !in p
  {
    if s != "" { SplitKeepsOut(s[1..], c); }
  }

  lemma NormalizeWellFormed(input: Resource)
    requires Normalize(input).Ok?
    ensures WellFormed(Normalize(input).value) && Normalize(input).value.kind == input.kind
  {
    if input.kind != Logical {
      SplitKeepsOut(input.path, '\\');
      SegmentsWellFormed(Split(input.path), input.kind);
      var r := Normalize(input).value;
      if input.kind != Glob {
        assert forall i | 0 <= i < |r.segments| :: r.segments[i] in r.segments;
      }
    }
  }

  // ---------------------------------------------------------------- normalizing again

  /** Segments that survived once survive again, unchanged. */
  lemma {:induction false} SegmentsFixed(segments: seq<Segment>, kind: Kind)
    requires forall s | s in segments :: WellFormedSegment(s, kind)
    ensures Segments(Texts(segments), kind) == Ok(segments)
  {
    if segments != [] {
      SegmentsFixed(segments[1..], kind);
      assert segments[0] in segments;
      assert Texts(segments)[1..] == Texts(segments[1..]);
      assert segments == [segments[0]] + segments[1..];
    }
  }

  /** The parts of a path that name something. */
  function KeptParts(parts: seq<string>): seq<string> {
    if parts == [] then []
    else if parts[0] == "" || parts[0] == "." then KeptParts(parts[1..])
    else [parts[0]] + KeptParts(parts[1..])
  }

  predicate Wildcard(c: char) {
    c == '*' || c == '?' || c == '[' || c == ']' || c == '{' || c == '}' || c == '\\'
  }

  /** A part may stand in a path: not a parent reference and, in a glob, no wildcard inside a name. */
  predicate PartAllowed(part: string, kind: Kind) {
    part != ".." && (kind == Glob ==> part == "*" || part == "**" || forall c | c in part :: !Wildcard(c))
  }

  /** What a kept part stands for: `*` and `**` are patterns in a glob, and names everywhere else. */
  function SegmentFor(text: string, kind: Kind): Segment {
    if kind == Glob && text == "*" then Segment(Star, text)
    else if kind == Glob && text == "**" then Segment(StarStar, text)
    else Segment(Literal, text)
  }

  ghost predicate SegmentsFollow(segments: seq<Segment>, texts: seq<string>, kind: Kind) {
    |segments| == |texts| && forall i | 0 <= i < |texts| :: segments[i] == SegmentFor(texts[i], kind)
  }

  ghost predicate AllAllowed(parts: seq<string>, kind: Kind) {
    forall p | p in parts :: PartAllowed(p, kind)
  }

  lemma AllowedStep(parts: seq<string>, kind: Kind)
    requires parts != []
    ensures AllAllowed(parts, kind) <==> PartAllowed(parts[0], kind) && AllAllowed(parts[1..], kind)
  {
    assert forall p :: p in parts <==> p == parts[0] || p in parts[1..];
  }

  lemma PartExact(part: string, kind: Kind)
    ensures PartAllowed(part, kind) <==> Dropped(part) || (part != ".." && Classify(part, kind).Ok?)
  {
  }

  lemma {:induction false} SegmentsAccepted(parts: seq<string>, kind: Kind)
    ensures Segments(parts, kind).Ok? <==> AllAllowed(parts, kind)
  {
    if parts != [] {
      SegmentsAccepted(parts[1..], kind);
      AllowedStep(parts, kind);
      PartExact(parts[0], kind);
    }
  }

  lemma ClassifiedAs(text: string, kind: Kind)
    requires Classify(text, kind).Ok?
    ensures Classify(text, kind).value == SegmentFor(text, kind)
  {
  }

  lemma NothingFollows(kind: Kind)
    ensures SegmentsFollow([], [], kind) && Texts([]) == []
  {
  }

  lemma FollowStep(first: Segment, segments: seq<Segment>, text: string, texts: seq<string>, kind: Kind)
    requires SegmentsFollow(segments, texts, kind) && Texts(segments) == texts && first == SegmentFor(text, kind)
    ensures SegmentsFollow([first] + segments, [text] + texts, kind) && Texts([first] + segments) == [text] + texts
  {
  }

  lemma {:induction false} SegmentsKept(parts: seq<string>, kind: Kind)
    requires Segments(parts, kind).Ok?
    ensures var segments := Segments(parts, kind).value;
            Texts(segments) == KeptParts(parts) && SegmentsFollow(segments, KeptParts(parts), kind)
  {
    hide SegmentsFollow, Classify, SegmentFor, Texts;
    if parts == [] {
      NothingFollows(kind);
    } else {
      SegmentsKept(parts[1..], kind);
      if !Dropped(parts[0]) {
        ClassifiedAs(parts[0], kind);
        var first, rest := Classify(parts[0], kind).value, Segments(parts[1..], kind).value;
        FollowStep(first, rest, parts[0], KeptParts(parts[1..]), kind);
      }
    }
  }

  /** Project-relative text: no NUL, no backslash, no leading slash, no drive letter; at most 4096 runes. */
  ghost predicate PathForm(path: string) {
    && |path| <= 4096 && (forall c | c in path :: c != '\0' && c != '\\')
    && (path != "" ==> path[0] != '/')
    && !StartsWithDrive(path)
  }

  ghost predicate StartsWithDrive(path: string) {
    |path| >= 2 && (65 <= path[0] as int <= 90 || 97 <= path[0] as int <= 122) && path[1] == ':'
  }

  lemma FormExact(path: string)
    ensures CheckPath(path).Ok? <==> PathForm(path)
  {
  }

  /** Exactly which paths are accepted, and what becomes of them: every part that names something, in order. */
  lemma PathAccepted(input: Resource)
    requires input.kind == File || input.kind == Directory || input.kind == Glob
    ensures var kept, r := KeptParts(Split(input.path)), Normalize(input);
            && (r.Ok? <==> PathForm(input.path)
                           && AllAllowed(Split(input.path), input.kind)
                           && kept != []
                           && (input.kind == Glob ==> forall i | 0 <= i < |kept| - 1 :: kept[i] != "**"))
            && (r.Ok? ==> && r.value == Normalized(input.kind, Join(kept), r.value.segments, "", "")
                          && SegmentsFollow(r.value.segments, kept, input.kind) && Texts(r.value.segments) == kept)
  {
    FormExact(input.path);
    SegmentsAccepted(Split(input.path), input.kind);
    if Segments(Split(input.path), input.kind).Ok? { SegmentsKept(Split(input.path), input.kind); }
  }

  /** Dropping segments only shortens a path, and brings in no new character. */
  lemma {:induction false} DroppingShortens(parts: seq<string>, kind: Kind)
    requires Segments(parts, kind).Ok?
    ensures var kept := Join(Texts(Segments(parts, kind).value));
            |kept| <= |Join(parts)| && forall c | c in kept :: c in Join(parts)
  {
    if parts != [] {
      var rest := Segments(parts[1..], kind);
      DroppingShortens(parts[1..], kind);
      if |parts| > 1 {
        assert Join(parts) == parts[0] + "/" + Join(parts[1..]);
      }
      if !Dropped(parts[0]) {
        var segments := Segments(parts, kind).value;
        assert Texts(segments)[1..] == Texts(rest.value);
        assert Texts(segments)[0] == parts[0];
      }
    }
  }

  lemma {:induction false} JoinStart(texts: seq<string>)
    requires texts != [] && texts[0] != ""
    ensures Join(texts) != "" && Join(texts)[0] == texts[0][0]
  {
  }

  /**
   Normalizing a display path again gives the same resource exactly when the display does not look
   like a Windows volume; everything else about it is accepted.
   */
  lemma PathRoundTrip(input: Resource)
    requires Normalize(input).Ok? && input.kind != Logical
    ensures var r := Normalize(input).value;
            Normalize(Resource(input.kind, r.display, "", ""))
            == if IsVolumeForm(r.display) then Err(VolumeForm) else Ok(r)
  {
    NormalizeWellFormed(input);
    var r := Normalize(input).value;
    var texts := Texts(r.segments);
    DroppingShortens(Split(input.path), input.kind);
    JoinSplit(input.path);
    assert r.segments[0] in r.segments;
    JoinStart(texts);
    forall p | p in texts ensures '/' !in p {
      var i :| 0 <= i < |texts| && p == texts[i];
      assert r.segments[i] in r.segments;
    }
    SplitJoin(texts);
    SegmentsFixed(r.segments, input.kind);
  }

  lemma KeptSegment()
    ensures Segments([".", "C:"], File) == Ok([Segment(Literal, "C:")])
  {
    var parts, tail, kept := [".", "C:"], ["C:"], Segment(Literal, "C:");
    assert parts[1..] == tail && tail[1..] == [];
    assert Segments(tail, File) == Ok([kept] + []);
    assert [kept] + [] == [kept];
    assert Dropped(parts[0]) && Segments(parts, File) == Segments(tail, File);
  }

  /** The display of an accepted path can be refused: the promise of a fixed point fails on "./C:". */
  lemma VolumeDisplayRefused()
    ensures var input := Resource(File, "./C:", "", "");
            Normalize(input).Ok?
            && Normalize(Resource(File, Normalize(input).value.display, "", "")) == Err(VolumeForm)
  {
    var input := Resource(File, "./C:", "", "");
    assert Split(input.path) == [".", "C:"] by {
      assert [".", "C:"][1..] == ["C:"] && Join([".", "C:"]) == "./C:";
      SplitJoin([".", "C:"]);
    }
    KeptSegment();
    assert CheckPath(input.path) == Ok(()) && Normalize(input).Ok?;
    assert Normalize(input).value.display == "C:" by { assert Texts([Segment(Literal, "C:")]) == ["C:"]; }
    PathRoundTrip(input);
    assert Normalize(input).value.kind == File;
  }

  lemma {:induction false} TrimSpaceFixed(s: string)
    ensures TrimSpace(TrimSpace(s)) == TrimSpace(s)
    decreases |s|
  {
    if s != "" {
      if IsSpace(s[0]) { TrimSpaceFixed(s[1..]); }
      else if IsSpace(s[|s| - 1]) { TrimSpaceFixed(s[..|s| - 1]); }
    }
  }

  /** A logical resource normalizes to itself. */
  lemma LogicalRoundTrip(input: Resource)
    requires input.kind == Logical && Normalize(input).Ok?
    ensures var r := Normalize(input).value;
            Normalize(Resource(Logical, "", r.namespace, r.name)) == Ok(r)
            && r.display == r.namespace + ":" + r.name && ':' !in r.namespace
  {
    TrimSpaceFixed(input.name);
  }

  // ---------------------------------------------------------------- comparison keys

  /** `foldedText`. */
  function FoldedText(s: Segment): string {
    if s.kind == Literal then AsciiFold(s.text) else s.text
  }

  function Folded(r: Normalized): (f: seq<string>)
    ensures |f| == |r.segments| && forall i | 0 <= i < |f| :: f[i] == FoldedText(r.segments[i])
  {
    seq(|r.segments|, i requires 0 <= i < |r.segments| => FoldedText(r.segments[i]))
  }

  function KindName(kind: Kind): string {
    match kind
    case File => "file"
    case Directory => "directory"
    case Glob => "glob"
    case Logical => "logical"
    case Unsupported(name) => name
  }

  /** `Key`. */
  function Key(r: Normalized): string {
    if r.kind == Logical then r.namespace + ":" + r.name else KindName(r.kind) + ":" + Join(Folded(r))
  }

  /** `foldedSegments`. */
  method FoldedSegments(segments: seq<Segment>) returns (folded: seq<string>)
    ensures |folded| == |segments| && forall i | 0 <= i < |segments| :: folded[i] == FoldedText(segments[i])
  {
    folded := [];
    for i := 0 to |segments|
      invariant |folded| == i && forall j | 0 <= j < i :: folded[j] == FoldedText(segments[j])
    {
      var text := segments[i].text;
      if segments[i].kind == Literal { text := FoldInPlace(text); }
      folded := folded + [text];
    }
  }

  /** The loop of `normalizePath` with its early exits. */
  method SplitSegments(path: string, kind: Kind) returns (result: Result<seq<Segment>>)
    ensures result == Segments(Split(path), kind)
  {
    var raw := Split(path);
    var segments: seq<Segment> := [];
    ghost var goal := Segments(raw, kind);
    assert raw[0..] == raw;
    assert forall rest: seq<Segment> :: [] + rest == rest;
    for i := 0 to |raw|
      invariant goal == match Segments(raw[i..], kind)
                        case Err(error) => Err(error)
                        case Ok(rest) => Ok(segments + rest)
    {
      assert raw[i..][1..] == raw[i + 1..];
      if raw[i] == "" || raw[i] == "." { continue; }
      if raw[i] == ".." { return Err(ParentSegment); }
      var segment := Classify(raw[i], kind);
      if segment.Err? { return Err(segment.error); }
      assert forall rest: seq<Segment> :: segments + ([segment.value] + rest) == (segments + [segment.value]) + rest;
      segments := segments + [segment.value];
    }
    assert segments + [] == segments;
    return Ok(segments);
  }
}
