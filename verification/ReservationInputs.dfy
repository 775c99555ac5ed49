/**
 What `Normalize` accepts and refuses, read off the input alone: the text of logical resources, the
 defect each refusal names, and when two texts are equal for comparison.
 */
module ReservationInputs {
  import opened Reservations

  // ---------------------------------------------------------------- case

  /** The same character, or the two cases of one ASCII letter. */
  predicate SameLetter(c: char, d: char) {
    || c == d
    || (65 <= c as int <= 90 && d as int == c as int + 32)
    || (65 <= d as int <= 90 && c as int == d as int + 32)
  }

  ghost predicate SameUpToCase(a: string, b: string) {
    |a| == |b| && forall i | 0 <= i < |a| :: SameLetter(a[i], b[i])
  }

  /** Two texts fold alike exactly when they agree up to the case of ASCII letters. */
  lemma FoldExact(a: string, b: string)
    ensures AsciiFold(a) == AsciiFold(b) <==> SameUpToCase(a, b)
  {
    forall c: char, d: char ensures FoldChar(c) == FoldChar(d) <==> SameLetter(c, d) {}
    if SameUpToCase(a, b) {
      assert forall i | 0 <= i < |a| :: AsciiFold(a)[i] == AsciiFold(b)[i];
    }
    if AsciiFold(a) == AsciiFold(b) {
      forall i | 0 <= i < |a| ensures SameLetter(a[i], b[i]) {
        assert AsciiFold(a)[i] == FoldChar(a[i]) && AsciiFold(b)[i] == FoldChar(b[i]);
      }
    }
  }

  // ---------------------------------------------------------------- white space around a name

  predicate White(c: char) {
    var n := c as int;
    || 9 <= n <= 13 || n == 32 || n == 0x85 || n == 0xA0 || n == 0x1680 || 0x2000 <= n <= 0x200A
    || n == 0x2028 || n == 0x2029 || n == 0x202F || n == 0x205F || n == 0x3000
  }

  ghost predicate AllWhite(s: string) { forall c | c in s :: White(c) }

  /** The text is `core` with white space around it, and `core` neither begins nor ends with any. */
  ghost predicate Around(s: string, lead: string, core: string, trail: string) {
    && s == lead + core + trail && AllWhite(lead) && AllWhite(trail)
    && (core != "" ==> !White(core[0]) && !White(core[|core| - 1]))
  }

  ghost predicate Core(s: string, core: string) { exists lead, trail :: Around(s, lead, core, trail) }

  lemma SpaceExact(c: char)
    ensures IsSpace(c) <==> White(c)
  {
  }

  lemma {:induction false} TrimCore(s: string)
    ensures Core(s, TrimSpace(s))
    decreases |s|
  {
    if s == "" {
      assert Around(s, "", "", "");
    } else {
      var last := |s| - 1;
      SpaceExact(s[0]);
      SpaceExact(s[last]);
      if IsSpace(s[0]) {
        TrimCore(s[1..]);
        var lead, trail :| Around(s[1..], lead, TrimSpace(s[1..]), trail);
        AroundFirst(s, lead, TrimSpace(s), trail);
      } else if IsSpace(s[last]) {
        TrimCore(s[..last]);
        var lead, trail :| Around(s[..last], lead, TrimSpace(s[..last]), trail);
        AroundLast(s, lead, TrimSpace(s), trail);
      } else {
        assert s == "" + s + "";
        assert Around(s, "", s, "");
      }
    }
  }

  lemma AroundFirst(s: string, lead: string, core: string, trail: string)
    requires s != "" && White(s[0]) && Around(s[1..], lead, core, trail)
    ensures Core(s, core)
  {
    assert s == [s[0]] + s[1..] == ([s[0]] + lead) + core + trail;
    assert Around(s, [s[0]] + lead, core, trail);
  }

  lemma AroundLast(s: string, lead: string, core: string, trail: string)
    requires s != "" && White(s[|s| - 1]) && Around(s[..|s| - 1], lead, core, trail)
    ensures Core(s, core)
  {
    var c := s[|s| - 1];
    assert s == s[..|s| - 1] + [c] == lead + core + (trail + [c]);
    assert Around(s, lead, core, trail + [c]);
  }

  lemma TrimLead(lead: string, rest: string)
    requires AllWhite(lead)
    ensures TrimSpace(lead + rest) == TrimSpace(rest)
    decreases |lead|
  {
    if lead == "" {
      assert lead + rest == rest;
    } else {
      assert lead[0] in lead;
      SpaceExact(lead[0]);
      assert (lead + rest)[0] == lead[0] && (lead + rest)[1..] == lead[1..] + rest;
      TrimLead(lead[1..], rest);
    }
  }

  lemma TrimWhite(s: string)
    requires AllWhite(s)
    ensures TrimSpace(s) == ""
  {
    TrimLead(s, "");
    assert s + "" == s;
  }

  lemma TrimTrail(core: string, trail: string)
    requires AllWhite(trail) && core != "" && !White(core[0]) && !White(core[|core| - 1])
    ensures TrimSpace(core + trail) == core
    decreases |trail|
  {
    var s, last := core + trail, |core + trail| - 1;
    SpaceExact(core[0]);
    SpaceExact(s[last]);
    assert s[0] == core[0];
    if trail == "" {
      assert s == core;
    } else {
      assert s[last] == trail[|trail| - 1] && s[last] in trail;
      assert s[..last] == core + trail[..|trail| - 1];
      TrimTrail(core, trail[..|trail| - 1]);
    }
  }

  /** Trimming yields the core of a text, and a text has only one. */
  lemma TrimExact(s: string, core: string)
    ensures TrimSpace(s) == core <==> Core(s, core)
  {
    TrimCore(s);
    if Core(s, core) {
      var lead, trail :| Around(s, lead, core, trail);
      assert lead + core + trail == lead + (core + trail);
      TrimLead(lead, core + trail);
      if core == "" {
        assert core + trail == trail;
        TrimWhite(trail);
      } else {
        TrimTrail(core, trail);
      }
    }
  }

  // ---------------------------------------------------------------- logical resources

  predicate Lower(c: char) { 97 <= c as int <= 122 }

  /** `[a-z][a-z0-9.-]{0,63}` */
  ghost predicate NamespaceText(s: string) {
    && 1 <= |s| <= 64 && Lower(s[0])
    && forall i | 1 <= i < |s| :: Lower(s[i]) || 48 <= s[i] as int <= 57 || s[i] == '.' || s[i] == '-'
  }

  ghost predicate NameText(s: string) { 1 <= |s| <= 256 && '\0' !in s }

  lemma NamespaceExact(s: string)
    ensures NamespaceText(s) <==> '\0' !in s && |s| <= MAX_NAMESPACE_RUNES && ValidNamespace(s)
  {
  }

  /** Exactly which logical resources are accepted, and what becomes of them. */
  lemma LogicalAccepted(input: Resource, r: Normalized)
    requires input.kind == Logical
    ensures Normalize(input) == Ok(r) <==>
            && NamespaceText(input.namespace) && NameText(r.name) && Core(input.name, r.name)
            && r == Normalized(Logical, input.namespace + ":" + r.name, [], input.namespace, r.name)
  {
    hide TrimSpace, Core, ValidNamespace, NamespaceText;
    NamespaceExact(input.namespace);
    TrimExact(input.name, r.name);
  }

  // ---------------------------------------------------------------- refusals

  /** The input has the defect that the error names. */
  ghost predicate HasDefect(input: Resource, error: Error) {
    match error
    case InvalidKind => input.kind.Unsupported?
    case NulNotAllowed =>
      if input.kind == Logical then '\0' in input.namespace || '\0' in input.name else '\0' in input.path
    case MaxRunes =>
      if input.kind == Logical then |input.namespace| > 64 || |input.name| > 256 else |input.path| > 4096
    case InvalidNamespace => input.kind == Logical && !NamespaceText(input.namespace)
    case NameRequired => input.kind == Logical && AllWhite(input.name)
    case BackslashNotAllowed => input.kind != Logical && '\\' in input.path
    case AbsolutePath => input.kind != Logical && input.path != "" && input.path[0] == '/'
    case VolumeForm => input.kind != Logical && StartsWithDrive(input.path)
    case ParentSegment => input.kind != Logical && ".." in Split(input.path)
    case InvalidGlobSegment => input.kind == Glob && exists p :: MixedPart(Split(input.path), p)
    case EmptyRoot => input.kind != Logical && forall p | p in Split(input.path) :: p == "" || p == "."
    case StarStarNotLast =>
      input.kind == Glob && exists i: nat :: EarlyStarStar(KeptParts(Split(input.path)), i)
  }

  /** A part that mixes a wildcard with other text. */
  ghost predicate MixedPart(parts: seq<string>, p: string) {
    p in parts && p != "*" && p != "**" && exists c :: c in p && Wildcard(c)
  }

  ghost predicate EarlyStarStar(parts: seq<string>, i: nat) { i + 1 < |parts| && parts[i] == "**" }

  lemma MixedExact(text: string)
    ensures HasGlobMeta(text) <==> exists c :: c in text && Wildcard(c)
  {
    forall c: char ensures c in "*?[]{}\\" <==> Wildcard(c) {}
  }

  lemma {:induction false} SegmentsRefusal(parts: seq<string>, kind: Kind)
    requires Segments(parts, kind).Err?
    ensures match Segments(parts, kind).error
            case ParentSegment => ".." in parts
            case InvalidGlobSegment => kind == Glob && exists p :: MixedPart(parts, p)
            case _ => false
  {
    if !Dropped(parts[0]) && parts[0] != ".." && Classify(parts[0], kind).Err? {
      MixedExact(parts[0]);
      assert MixedPart(parts, parts[0]);
    } else if parts[0] != ".." || Dropped(parts[0]) {
      SegmentsRefusal(parts[1..], kind);
      if exists p :: MixedPart(parts[1..], p) {
        var p :| MixedPart(parts[1..], p);
        assert MixedPart(parts, p);
      }
    }
  }

  lemma {:induction false} NoneKept(parts: seq<string>)
    requires KeptParts(parts) == []
    ensures forall p | p in parts :: p == "" || p == "."
  {
    if parts != [] {
      NoneKept(parts[1..]);
      assert forall p | p in parts :: p == parts[0] || p in parts[1..];
    }
  }

  lemma PathRefusal(input: Resource)
    requires input.kind in {File, Directory, Glob} && Normalize(input).Err?
    ensures HasDefect(input, Normalize(input).error)
  {
    var parts, kind := Split(input.path), input.kind;
    if CheckPath(input.path).Ok? {
      if Segments(parts, kind).Err? {
        SegmentsRefusal(parts, kind);
      } else {
        SegmentsKept(parts, kind);
        var segments := Segments(parts, kind).value;
        if segments == [] {
          NoneKept(parts);
        } else {
          var i: nat :| i < |segments| - 1 && segments[i].kind == StarStar;
          assert EarlyStarStar(KeptParts(parts), i);
        }
      }
    }
  }

  lemma TrimmedWithin(s: string)
    ensures forall c | c in TrimSpace(s) :: c in s
  {
    TrimCore(s);
  }

  lemma LogicalRefusal(input: Resource)
    requires input.kind == Logical && Normalize(input).Err?
    ensures HasDefect(input, Normalize(input).error)
  {
    TrimmedWithin(input.name);
    NamespaceExact(input.namespace);
    if TrimSpace(input.name) == "" {
      TrimCore(input.name);
      var lead, trail :| Around(input.name, lead, "", trail);
    }
  }

  /** Every refusal names a defect the input has. */
  lemma RefusalNamesDefect(input: Resource)
    requires Normalize(input).Err?
    ensures HasDefect(input, Normalize(input).error)
  {
    if input.kind == Logical { LogicalRefusal(input); }
    else if !input.kind.Unsupported? { PathRefusal(input); }
  }
}
