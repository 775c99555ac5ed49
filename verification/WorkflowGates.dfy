/**
 Workflow gates: evaluating a frozen requirement set against evidence at an enforcement point, and
 freezing one under a fingerprint. Hashing and JSON marshalling are one function, left abstract.
 */
module WorkflowGates {
  import opened Ordering
  import opened WorkflowPolicies

  datatype Point =
    | ClaimWork | CompleteWorkToReview | CompleteWorkToDone | ApproveReview | UnknownPoint(text: string)

  datatype Evidence = Evidence(acceptanceCriteriaBlank: bool, attemptEvidenceKeys: set<string>,
                               reviewApprovalPurposes: set<string>)

  datatype Unmet = Unmet(policyID: string, key: string, point: Point, reason: string)

  datatype Evaluation = Evaluation(point: Point, satisfied: seq<Requirement>, unmet: seq<Unmet>) {
    predicate Passed() { unmet == [] }
  }

  datatype Outcome = Evaluated(evaluation: Evaluation) | InvalidPoint(text: string) | InvalidKind(text: string)

  predicate AppliesAt(kind: RequirementKind, point: Point) {
    match kind
    case IssueFieldNonblank => point in {ClaimWork, CompleteWorkToReview, CompleteWorkToDone}
    case AttemptEvidence => point in {CompleteWorkToReview, CompleteWorkToDone}
    case ReviewApproval => point in {CompleteWorkToDone, ApproveReview}
    case UnknownKind(_) => false
  }

  /** What the evidence must show for a requirement. */
  predicate Holds(r: Requirement, evidence: Evidence) {
    match r.kind
    case IssueFieldNonblank => !evidence.acceptanceCriteriaBlank
    case AttemptEvidence => r.evidenceKey in evidence.attemptEvidenceKeys
    case ReviewApproval => r.purpose in evidence.reviewApprovalPurposes
    case UnknownKind(_) => false
  }

  function Reason(r: Requirement): string {
    match r.kind
    case IssueFieldNonblank => "issue field '" + r.field + "' is blank"
    case AttemptEvidence => "no attempt_evidence recorded for key '" + r.evidenceKey + "'"
    case ReviewApproval => "no review_approval recorded for purpose '" + r.purpose + "'"
    case UnknownKind(_) => "unrecognized requirement kind"
  }

  method IsSatisfied(r: Requirement, evidence: Evidence) returns (satisfied: bool, reason: string)
    ensures satisfied <==> Holds(r, evidence)
    ensures satisfied ==> reason == ""
    ensures !satisfied ==> reason == Reason(r)
  {
    match r.kind {
      case IssueFieldNonblank =>
        if evidence.acceptanceCriteriaBlank { return false, "issue field '" + r.field + "' is blank"; }
        return true, "";
      case AttemptEvidence =>
        if r.evidenceKey !in evidence.attemptEvidenceKeys {
          return false, "no attempt_evidence recorded for key '" + r.evidenceKey + "'";
        }
        return true, "";
      case ReviewApproval =>
        if r.purpose !in evidence.reviewApprovalPurposes {
          return false, "no review_approval recorded for purpose '" + r.purpose + "'";
        }
        return true, "";
      case UnknownKind(_) =>
        return false, "unrecognized requirement kind";
    }
  }

  // ---------------------------------------------------------------- what a gate asks for

  /**
   What each point demands: claiming the issue's fields, handing in for review also evidence of the
   attempt, finishing also approval, and approving a review its approval alone.
   */
  predicate Demanded(kind: RequirementKind, point: Point) {
    match point
    case ClaimWork => kind == IssueFieldNonblank
    case CompleteWorkToReview => kind == IssueFieldNonblank || kind == AttemptEvidence
    case CompleteWorkToDone => kind == IssueFieldNonblank || kind == AttemptEvidence || kind == ReviewApproval
    case ApproveReview => kind == ReviewApproval
    case UnknownPoint(_) => false
  }

  /** The evidence shows what the requirement asks for. */
  predicate Shown(r: Requirement, evidence: Evidence) {
    && (r.kind == IssueFieldNonblank ==> !evidence.acceptanceCriteriaBlank)
    && (r.kind == AttemptEvidence ==> r.evidenceKey in evidence.attemptEvidenceKeys)
    && (r.kind == ReviewApproval ==> r.purpose in evidence.reviewApprovalPurposes)
  }

  lemma DemandsExact(r: Requirement, point: Point, evidence: Evidence)
    ensures AppliesAt(r.kind, point) <==> Demanded(r.kind, point)
    ensures !r.kind.UnknownKind? ==> (Holds(r, evidence) <==> Shown(r, evidence))
  {
  }

  // ---------------------------------------------------------------- what an evaluation means

  ghost predicate KindsKnown(requirements: seq<Requirement>) {
    forall i | 0 <= i < |requirements| :: !requirements[i].kind.UnknownKind?
  }

  /** The requirements with a property, in their order. */
  ghost function Select(requirements: seq<Requirement>, keep: Requirement -> bool): seq<Requirement> {
    if requirements == [] then []
    else
      var n := |requirements| - 1;
      Select(requirements[..n], keep) + (if keep(requirements[n]) then [requirements[n]] else [])
  }

  ghost function Met(point: Point, evidence: Evidence): Requirement -> bool {
    (r: Requirement) => AppliesAt(r.kind, point) && Holds(r, evidence)
  }

  ghost function Missed(point: Point, evidence: Evidence): Requirement -> bool {
    (r: Requirement) => AppliesAt(r.kind, point) && !Holds(r, evidence)
  }

  ghost function Applicable(point: Point): Requirement -> bool { (r: Requirement) => Demanded(r.kind, point) }

  function Report(r: Requirement, point: Point): Unmet { Unmet(r.policyID, r.key, point, Reason(r)) }

  ghost function Reports(rs: seq<Requirement>, point: Point): seq<Unmet> {
    seq(|rs|, i requires 0 <= i < |rs| => Report(rs[i], point))
  }

  /** An unknown point or kind is an error; otherwise the applicable requirements are split in order. */
  ghost function Expected(point: Point, requirements: seq<Requirement>, evidence: Evidence): Outcome
    requires point.UnknownPoint? || KindsKnown(requirements)
  {
    if point.UnknownPoint? then InvalidPoint(point.text)
    else Evaluated(Evaluation(point, Select(requirements, Met(point, evidence)),
                              Reports(Select(requirements, Missed(point, evidence)), point)))
  }

  ghost predicate FirstUnknown(requirements: seq<Requirement>, i: nat) {
    && i < |requirements| && requirements[i].kind.UnknownKind?
    && forall k | 0 <= k < i :: !requirements[k].kind.UnknownKind?
  }

  lemma SelectNext(requirements: seq<Requirement>, i: nat, keep: Requirement -> bool)
    requires i < |requirements|
    ensures Select(requirements[..i + 1], keep)
         == Select(requirements[..i], keep) + (if keep(requirements[i]) then [requirements[i]] else [])
  {
    assert requirements[..i + 1][..i] == requirements[..i];
  }

  lemma ReportsNext(rs: seq<Requirement>, more: seq<Requirement>, r: Requirement, point: Point)
    requires more == rs + [r]
    ensures Reports(more, point) == Reports(rs, point) + [Report(r, point)]
  {
  }

  lemma MissedNext(point: Point, requirements: seq<Requirement>, i: nat, keep: Requirement -> bool)
    requires i < |requirements|
    ensures Reports(Select(requirements[..i + 1], keep), point)
         == Reports(Select(requirements[..i], keep), point)
            + (if keep(requirements[i]) then [Report(requirements[i], point)] else [])
  {
    SelectNext(requirements, i, keep);
    if keep(requirements[i]) {
      ReportsNext(Select(requirements[..i], keep), Select(requirements[..i + 1], keep), requirements[i], point);
    }
  }

  method EvaluateGate(point: Point, requirements: seq<Requirement>, evidence: Evidence) returns (outcome: Outcome)
    ensures point.UnknownPoint? || KindsKnown(requirements) ==> outcome == Expected(point, requirements, evidence)
    ensures !point.UnknownPoint? && !KindsKnown(requirements) ==>
              exists i: nat :: FirstUnknown(requirements, i) && outcome == InvalidKind(requirements[i].kind.text)
  {
    if point.UnknownPoint? { return InvalidPoint(point.text); }
    var satisfied: seq<Requirement>, unmet: seq<Unmet> := [], [];
    for i := 0 to |requirements|
      invariant forall k | 0 <= k < i :: !requirements[k].kind.UnknownKind?
      invariant satisfied == Select(requirements[..i], Met(point, evidence))
      invariant unmet == Reports(Select(requirements[..i], Missed(point, evidence)), point)
    {
      var r := requirements[i];
      if r.kind.UnknownKind? {
        assert FirstUnknown(requirements, i);
        return InvalidKind(r.kind.text);
      }
      SelectNext(requirements, i, Met(point, evidence));
      MissedNext(point, requirements, i, Missed(point, evidence));
      if !AppliesAt(r.kind, point) { continue; }
      var ok, reason := IsSatisfied(r, evidence);
      if ok {
        satisfied := satisfied + [r];
        continue;
      }
      unmet := unmet + [Unmet(r.policyID, r.key, point, reason)];
    }
    assert requirements[..|requirements|] == requirements;
    outcome := Evaluated(Evaluation(point, satisfied, unmet));
  }

  lemma {:induction false} SelectExact(requirements: seq<Requirement>, keep: Requirement -> bool, r: Requirement)
    ensures r in Select(requirements, keep) <==> r in requirements && keep(r)
  {
    if requirements != [] {
      var n := |requirements| - 1;
      SelectExact(requirements[..n], keep, r);
      assert requirements == requirements[..n] + [requirements[n]];
    }
  }

  lemma {:induction false} SelectSorted(requirements: seq<Requirement>, keep: Requirement -> bool, less: Less)
    requires StrictlySorted(requirements, less)
    ensures StrictlySorted(Select(requirements, keep), less)
  {
    if requirements != [] {
      var n := |requirements| - 1;
      SelectSorted(requirements[..n], keep, less);
      var s := Select(requirements[..n], keep);
      forall i | 0 <= i < |s| ensures less(s[i], requirements[n]) {
        SelectExact(requirements[..n], keep, s[i]);
        assert s[i] in requirements[..n];
        var k :| 0 <= k < n && requirements[..n][k] == s[i];
        assert requirements[k] == s[i];
      }
    }
  }

  lemma {:induction false} SelectSplits(requirements: seq<Requirement>, a: Requirement -> bool, b: Requirement -> bool,
                                        both: Requirement -> bool)
    requires forall r :: both(r) <==> a(r) || b(r)
    requires forall r :: !(a(r) && b(r))
    ensures multiset(Select(requirements, a)) + multiset(Select(requirements, b))
         == multiset(Select(requirements, both))
  {
    if requirements != [] {
      SelectSplits(requirements[..|requirements| - 1], a, b, both);
    }
  }

  ghost predicate AllHold(point: Point, requirements: seq<Requirement>, evidence: Evidence) {
    forall r | r in requirements && Demanded(r.kind, point) :: Shown(r, evidence)
  }

  /** The gate passes exactly when the evidence shows every requirement demanded at the point. */
  lemma PassedIffAllHold(point: Point, requirements: seq<Requirement>, evidence: Evidence)
    requires !point.UnknownPoint? && KindsKnown(requirements)
    ensures Expected(point, requirements, evidence).evaluation.Passed() <==> AllHold(point, requirements, evidence)
  {
    hide AppliesAt, Holds, Demanded, Shown, Select;
    var missed := Select(requirements, Missed(point, evidence));
    forall r ensures r in missed <==> r in requirements && AppliesAt(r.kind, point) && !Holds(r, evidence) {
      SelectExact(requirements, Missed(point, evidence), r);
    }
    forall r | r in requirements
      ensures AppliesAt(r.kind, point) && !Holds(r, evidence) <==> Demanded(r.kind, point) && !Shown(r, evidence)
    {
      DemandsExact(r, point, evidence);
    }
    if missed != [] { assert missed[0] in missed; }
  }

  /** The satisfied ones and `missed`, reported as unmet, are the applicable requirements. */
  ghost predicate SplitBy(e: Evaluation, requirements: seq<Requirement>, evidence: Evidence, missed: seq<Requirement>) {
    && e.unmet == Reports(missed, e.point)
    && multiset(e.satisfied) + multiset(missed) == multiset(Select(requirements, Applicable(e.point)))
    && (forall r | r in missed :: !Shown(r, evidence))
    && (forall r | r in e.satisfied :: Shown(r, evidence))
  }

  /** Every applicable requirement is reported once, as satisfied or as unmet; nothing else is. */
  lemma EvaluationSplits(point: Point, requirements: seq<Requirement>, evidence: Evidence)
    requires !point.UnknownPoint? && KindsKnown(requirements)
    ensures exists missed :: SplitBy(Expected(point, requirements, evidence).evaluation, requirements, evidence, missed)
  {
    var satisfied := Select(requirements, Met(point, evidence));
    var missed := Select(requirements, Missed(point, evidence));
    SelectSplits(requirements, Met(point, evidence), Missed(point, evidence), Applicable(point));
    forall r | r in missed ensures !Shown(r, evidence) { SelectExact(requirements, Missed(point, evidence), r); }
    forall r | r in satisfied ensures Shown(r, evidence) { SelectExact(requirements, Met(point, evidence), r); }
    assert SplitBy(Expected(point, requirements, evidence).evaluation, requirements, evidence, missed);
  }

  ghost predicate AtLeast(more: Evidence, less: Evidence) {
    && (more.acceptanceCriteriaBlank ==> less.acceptanceCriteriaBlank)
    && less.attemptEvidenceKeys <= more.attemptEvidenceKeys
    && less.reviewApprovalPurposes <= more.reviewApprovalPurposes
  }

  /** More evidence never unsatisfies a requirement or fails a gate. */
  lemma EvidenceMonotone(point: Point, requirements: seq<Requirement>, less: Evidence, more: Evidence)
    requires !point.UnknownPoint? && KindsKnown(requirements) && AtLeast(more, less)
    ensures var before := Expected(point, requirements, less).evaluation;
            var after := Expected(point, requirements, more).evaluation;
            && (forall r | r in before.satisfied :: r in after.satisfied)
            && (before.Passed() ==> after.Passed())
  {
    forall r ensures Met(point, less)(r) ==> Met(point, more)(r) {}
    forall r | r in Select(requirements, Met(point, less)) ensures r in Select(requirements, Met(point, more)) {
      SelectExact(requirements, Met(point, less), r);
      SelectExact(requirements, Met(point, more), r);
    }
    PassedIffAllHold(point, requirements, less);
    PassedIffAllHold(point, requirements, more);
  }

  /** Evidence good enough to finish the work is good enough at every other point. */
  lemma DonePassesEverywhere(point: Point, requirements: seq<Requirement>, evidence: Evidence)
    requires !point.UnknownPoint? && KindsKnown(requirements)
    requires Expected(CompleteWorkToDone, requirements, evidence).evaluation.Passed()
    ensures Expected(point, requirements, evidence).evaluation.Passed()
  {
    PassedIffAllHold(CompleteWorkToDone, requirements, evidence);
    PassedIffAllHold(point, requirements, evidence);
  }

  // ---------------------------------------------------------------- gates over live policies

  /** Every requirement a matching policy contributes is of a known kind. */
  ghost predicate PoliciesKnown(policies: seq<Policy>, issueType: string, labels: seq<string>) {
    forall r | Contributed(policies, issueType, labels, r) :: !r.kind.UnknownKind?
  }

  lemma EffectiveKinds(policies: seq<Policy>, issueType: string, labels: seq<string>)
    requires Unambiguous(policies, issueType, labels)
    ensures KindsKnown(Effective(policies, issueType, labels)) <==> PoliciesKnown(policies, issueType, labels)
  {
    EffectiveExact(policies, issueType, labels);
    var e := Effective(policies, issueType, labels);
    assert forall i | 0 <= i < |e| :: e[i] in e;
  }

  predicate UnmetBefore(a: Unmet, b: Unmet) {
    KeyLess([Name(a.policyID), Name(a.key)], [Name(b.policyID), Name(b.key)])
  }

  lemma ReportsSorted(rs: seq<Requirement>, point: Point)
    requires StrictlySorted(rs, RequirementBefore)
    ensures StrictlySorted(Reports(rs, point), UnmetBefore)
  {
    var s := Reports(rs, point);
    forall i, j | 0 <= i < j < |s| ensures UnmetBefore(s[i], s[j]) {
      assert RequirementBefore(rs[i], rs[j]);
    }
  }

  /**
   From policies to the verdict: the gate on the effective set passes exactly when every applicable
   requirement of every matching active policy holds; both lists come out strictly sorted.
   */
  lemma GateMeansPolicies(point: Point, policies: seq<Policy>, issueType: string, labels: seq<string>,
                          evidence: Evidence)
    requires !point.UnknownPoint? && Stored(policies) && PoliciesKnown(policies, issueType, labels)
    ensures KindsKnown(Effective(policies, issueType, labels))
    ensures var e := Expected(point, Effective(policies, issueType, labels), evidence).evaluation;
            && (e.Passed() <==>
                forall r | Contributed(policies, issueType, labels, r) && Demanded(r.kind, point) ::
                  Shown(r, evidence))
            && StrictlySorted(e.satisfied, RequirementBefore)
            && StrictlySorted(e.unmet, UnmetBefore)
  {
    var requirements := Effective(policies, issueType, labels);
    StoredUnambiguous(policies, issueType, labels);
    EffectiveKinds(policies, issueType, labels);
    EffectiveExact(policies, issueType, labels);
    PassedIffAllHold(point, requirements, evidence);
    SelectSorted(requirements, Met(point, evidence), RequirementBefore);
    SelectSorted(requirements, Missed(point, evidence), RequirementBefore);
    ReportsSorted(Select(requirements, Missed(point, evidence)), point);
  }

  // ---------------------------------------------------------------- frozen snapshots

  datatype SourceRef = SourceRef(policyID: string, version: int)

  datatype Payload = Payload(requirements: seq<Requirement>, sources: seq<SourceRef>, issueVersion: int)

  datatype Snapshot = Snapshot(requirements: seq<Requirement>, sources: seq<SourceRef>, fingerprint: string,
                               issueVersion: int, createdAt: int)

  predicate SourceBefore(a: SourceRef, b: SourceRef) { KeyLess([Name(a.policyID)], [Name(b.policyID)]) }

  lemma SourceOrder()
    ensures WeakOrder(SourceBefore)
  {
    ByKey((s: SourceRef) => [Name(s.policyID)], SourceBefore);
  }

  /** What a snapshot freezes: the requirements as given, the sources in order, and the digest of exactly that. */
  ghost predicate Freezes(snapshot: Snapshot, requirements: seq<Requirement>, sources: seq<SourceRef>,
                          issueVersion: int, digest: Payload -> string) {
    && snapshot.requirements == requirements
    && multiset(snapshot.sources) == multiset(sources) && Sorted(snapshot.sources, SourceBefore)
    && snapshot.issueVersion == issueVersion
    && snapshot.fingerprint == digest(Payload(requirements, snapshot.sources, issueVersion))
  }

  method NewGateSnapshot(requirements: seq<Requirement>, sources: seq<SourceRef>, issueVersion: int, now: int,
                         digest: Payload -> string)
    returns (snapshot: Snapshot)
    ensures Freezes(snapshot, requirements, sources, issueVersion, digest) && snapshot.createdAt == now
  {
    var ordered := Sort(sources, SourceBefore);
    SourceOrder();
    SortSorted(sources, SourceBefore);
    SortContents(sources, SourceBefore);
    var payload := Payload(requirements, ordered, issueVersion);
    snapshot := Snapshot(requirements, ordered, digest(payload), issueVersion, now);
  }

  /** The policies a snapshot was taken from, pinned to their versions. */
  ghost function SourcesOf(policies: seq<Policy>, issueType: string, labels: seq<string>): seq<SourceRef> {
    if policies == [] then []
    else
      var last := policies[|policies| - 1];
      SourcesOf(policies[..|policies| - 1], issueType, labels)
      + (if Contributing(last, issueType, labels) then [SourceRef(last.id, last.version)] else [])
  }

  method MatchingSourcePolicies(policies: seq<Policy>, issueType: string, labels: seq<string>)
    returns (refs: seq<SourceRef>)
    ensures refs == SourcesOf(policies, issueType, labels)
  {
    refs := [];
    for i := 0 to |policies|
      invariant refs == SourcesOf(policies[..i], issueType, labels)
    {
      var policy := policies[i];
      assert policies[..i + 1][..i] == policies[..i];
      if policy.status != Active { continue; }
      var selected := Matches(policy.selector, issueType, labels);
      if !selected { continue; }
      refs := refs + [SourceRef(policy.id, policy.version)];
    }
    assert policies[..|policies|] == policies;
  }

  ghost predicate DistinctIDs(policies: seq<Policy>) {
    forall i, j | 0 <= i < j < |policies| :: policies[i].id != policies[j].id
  }

  ghost predicate ContributesSource(policies: seq<Policy>, issueType: string, labels: seq<string>, s: SourceRef) {
    exists p :: p in policies && Contributing(p, issueType, labels) && s == SourceRef(p.id, p.version)
  }

  lemma {:induction false} SourcesExact(policies: seq<Policy>, issueType: string, labels: seq<string>, s: SourceRef)
    ensures s in SourcesOf(policies, issueType, labels) <==> ContributesSource(policies, issueType, labels, s)
  {
    if policies != [] {
      var n := |policies| - 1;
      SourcesExact(policies[..n], issueType, labels, s);
      assert policies == policies[..n] + [policies[n]];
      assert forall p :: p in policies <==> p in policies[..n] || p == policies[n];
    }
  }

  lemma SourceTotal(a: SourceRef, b: SourceRef)
    requires a.policyID != b.policyID
    ensures SourceBefore(a, b) || SourceBefore(b, a)
  {
    KeyTotal([Name(a.policyID)], [Name(b.policyID)]);
    assert [Name(a.policyID)][0] != [Name(b.policyID)][0];
  }

  lemma {:induction false} SourcesDistinct(policies: seq<Policy>, issueType: string, labels: seq<string>)
    requires DistinctIDs(policies)
    ensures Comparable(SourcesOf(policies, issueType, labels), SourceBefore)
  {
    if policies != [] {
      var n := |policies| - 1;
      var s := SourcesOf(policies[..n], issueType, labels);
      SourcesDistinct(policies[..n], issueType, labels);
      var next := SourceRef(policies[n].id, policies[n].version);
      forall i | 0 <= i < |s| ensures SourceBefore(s[i], next) || SourceBefore(next, s[i]) {
        SourcesExact(policies[..n], issueType, labels, s[i]);
        var p :| p in policies[..n] && Contributing(p, issueType, labels) && s[i] == SourceRef(p.id, p.version);
        var k :| 0 <= k < n && policies[..n][k] == p;
        assert policies[k] == p;
        SourceTotal(s[i], next);
      }
    }
  }

  /** What one snapshot of live policies was taken of. */
  datatype Origin = Origin(policies: seq<Policy>, issueType: string, labels: seq<string>, issueVersion: int)

  /** The policies as storage keeps them. */
  ghost predicate WellStored(o: Origin) { Stored(o.policies) && DistinctIDs(o.policies) }

  ghost predicate Requires(o: Origin, r: Requirement) { Contributed(o.policies, o.issueType, o.labels, r) }

  ghost predicate DrawsOn(o: Origin, s: SourceRef) { ContributesSource(o.policies, o.issueType, o.labels, s) }

  /** The snapshot holds what the matching policies require, and which policies those were: all, once, in order. */
  ghost predicate Records(snapshot: Snapshot, o: Origin, digest: Payload -> string) {
    && StrictlySorted(snapshot.requirements, RequirementBefore)
    && (forall r :: r in snapshot.requirements <==> Requires(o, r))
    && StrictlySorted(snapshot.sources, SourceBefore)
    && (forall s :: s in snapshot.sources <==> DrawsOn(o, s))
    && snapshot.issueVersion == o.issueVersion
    && snapshot.fingerprint == digest(Payload(snapshot.requirements, snapshot.sources, snapshot.issueVersion))
  }

  lemma FreezingRecords(snapshot: Snapshot, o: Origin, digest: Payload -> string)
    requires WellStored(o)
    requires Freezes(snapshot, Effective(o.policies, o.issueType, o.labels),
                     SourcesOf(o.policies, o.issueType, o.labels), o.issueVersion, digest)
    ensures Records(snapshot, o, digest)
  {
    StoredUnambiguous(o.policies, o.issueType, o.labels);
    EffectiveExact(o.policies, o.issueType, o.labels);
    var sources := SourcesOf(o.policies, o.issueType, o.labels);
    SourcesDistinct(o.policies, o.issueType, o.labels);
    SortedStrict(sources, snapshot.sources, SourceBefore);
    SameContentsSameElements(snapshot.sources, sources);
    forall s ensures s in sources <==> DrawsOn(o, s) { SourcesExact(o.policies, o.issueType, o.labels, s); }
  }

  /** What claiming work does about gates: refuse, or freeze what was checked. */
  datatype Claim = Claimed(snapshot: Snapshot) | Refused(outcome: Outcome)

  /**
   The gate at `claim_work`: the claim goes through if and only if every requirement of every matching
   policy is of a known kind and, where it applies, holds; then the snapshot records exactly those policies.
   */
  method ClaimGate(o: Origin, evidence: Evidence, now: int, digest: Payload -> string) returns (claim: Claim)
    requires WellStored(o)
    ensures claim.Claimed? <==>
              forall r | Requires(o, r) ::
                !r.kind.UnknownKind? && (r.kind == IssueFieldNonblank ==> !evidence.acceptanceCriteriaBlank)
    ensures claim.Claimed? ==> Records(claim.snapshot, o, digest)
  {
    var requirements := MatchWorkflowPolicies(o.policies, o.issueType, o.labels);
    var sources := MatchingSourcePolicies(o.policies, o.issueType, o.labels);
    var outcome := EvaluateGate(ClaimWork, requirements, evidence);
    StoredUnambiguous(o.policies, o.issueType, o.labels);
    EffectiveKinds(o.policies, o.issueType, o.labels);
    if PoliciesKnown(o.policies, o.issueType, o.labels) {
      GateMeansPolicies(ClaimWork, o.policies, o.issueType, o.labels, evidence);
    }
    if !outcome.Evaluated? || !outcome.evaluation.Passed() { return Refused(outcome); }
    var snapshot := NewGateSnapshot(requirements, sources, o.issueVersion, now, digest);
    FreezingRecords(snapshot, o, digest);
    claim := Claimed(snapshot);
  }

  /** Two origins agree on everything a snapshot records. */
  ghost predicate SameOrigin(o: Origin, p: Origin) {
    && o.issueVersion == p.issueVersion
    && (forall r :: Requires(o, r) <==> Requires(p, r))
    && (forall s :: DrawsOn(o, s) <==> DrawsOn(p, s))
  }

  ghost predicate Injective(digest: Payload -> string) {
    forall p, q :: digest(p) == digest(q) ==> p == q
  }

  ghost predicate SamePayload(s: Snapshot, t: Snapshot) {
    s.requirements == t.requirements && s.sources == t.sources && s.issueVersion == t.issueVersion
  }

  lemma SamePayloadIffSameOrigin(s: Snapshot, o: Origin, t: Snapshot, p: Origin, digest: Payload -> string)
    requires Records(s, o, digest) && Records(t, p, digest)
    ensures SamePayload(s, t) <==> SameOrigin(o, p)
  {
    if SameOrigin(o, p) {
      RequirementOrder();
      SourceOrder();
      assert forall r :: r in s.requirements <==> r in t.requirements;
      StrictlySortedUnique(s.requirements, t.requirements, RequirementBefore);
      assert forall x :: x in s.sources <==> x in t.sources;
      StrictlySortedUnique(s.sources, t.sources, SourceBefore);
    }
  }

  /**
   The fingerprint is stable and discriminating: as far as the digest does not collide, two snapshots
   agree exactly when they recorded the same requirements, the same source policies and the same version.
   */
  lemma FingerprintExact(s: Snapshot, o: Origin, t: Snapshot, p: Origin, digest: Payload -> string)
    requires Records(s, o, digest) && Records(t, p, digest) && Injective(digest)
    ensures s.fingerprint == t.fingerprint <==> SameOrigin(o, p)
  {
    SamePayloadIffSameOrigin(s, o, t, p, digest);
  }

  /** Without any assumption on the digest, the order policies are read in never shows. */
  lemma FingerprintIgnoresOrder(s: Snapshot, o: Origin, t: Snapshot, p: Origin, digest: Payload -> string)
    requires Records(s, o, digest) && Records(t, p, digest)
    requires multiset(o.policies) == multiset(p.policies)
    requires o.issueType == p.issueType && o.labels == p.labels && o.issueVersion == p.issueVersion
    ensures s.fingerprint == t.fingerprint && SamePayload(s, t)
  {
    SameContentsSameElements(o.policies, p.policies);
    SamePayloadIffSameOrigin(s, o, t, p, digest);
  }
}
