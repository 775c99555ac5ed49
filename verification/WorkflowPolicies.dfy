/**
 Workflow policies: which policies match an issue, and the canonical union of what they require.
 The union is frozen and fingerprinted, so it must not depend on the order policies are read in.
 */
module WorkflowPolicies {
  import opened Ordering
  import opened Reservations

  const EPIC := "epic"

  datatype Status = Active | Archived | UnknownStatus(text: string)

  datatype RequirementKind = IssueFieldNonblank | AttemptEvidence | ReviewApproval | UnknownKind(text: string)

  datatype Selector = Selector(issueTypes: seq<string>, labelsAll: seq<string>)

  datatype Requirement = Requirement(policyID: string, key: string, kind: RequirementKind, field: string,
                                     evidenceKey: string, purpose: string, allowNotApplicable: bool)

  datatype Policy = Policy(id: string, selector: Selector, status: Status, version: int,
                           requirements: seq<Requirement>)

  // ---------------------------------------------------------------- selectors

  function FoldLabel(name: string): string { AsciiFold(TrimSpace(name)) }

  ghost predicate HasLabel(labels: seq<string>, required: string) {
    exists i :: 0 <= i < |labels| && FoldLabel(labels[i]) == FoldLabel(required)
  }

  /** Every constraint of the selector holds; epics never match. */
  ghost predicate Selects(selector: Selector, issueType: string, labels: seq<string>) {
    && issueType != EPIC
    && (selector.issueTypes == [] || issueType in selector.issueTypes)
    && forall required | required in selector.labelsAll :: HasLabel(labels, required)
  }

  method Matches(selector: Selector, issueType: string, labels: seq<string>) returns (ok: bool)
    ensures ok <==> Selects(selector, issueType, labels)
  {
    hide FoldLabel;
    if issueType == EPIC { return false; }
    if |selector.issueTypes| > 0 && issueType !in selector.issueTypes { return false; }
    if |selector.labelsAll| == 0 { return true; }
    var folded: set<string> := {};
    for i := 0 to |labels|
      invariant forall f :: f in folded <==> exists k :: 0 <= k < i && FoldLabel(labels[k]) == f
    {
      folded := folded + {FoldLabel(labels[i])};
    }
    for i := 0 to |selector.labelsAll|
      invariant forall k | 0 <= k < i :: HasLabel(labels, selector.labelsAll[k])
    {
      if FoldLabel(selector.labelsAll[i]) !in folded {
        assert !HasLabel(labels, selector.labelsAll[i]);
        return false;
      }
    }
    ok := true;
  }

  lemma {:induction false} FoldKeepsEnds(s: string)
    requires s == "" || (!IsSpace(s[0]) && !IsSpace(s[|s| - 1]))
    ensures TrimSpace(AsciiFold(s)) == AsciiFold(s)
  {
  }

  lemma FoldLabelIdempotent(name: string)
    ensures FoldLabel(FoldLabel(name)) == FoldLabel(name)
  {
    FoldKeepsEnds(TrimSpace(name));
    var f := FoldLabel(name);
    assert forall i | 0 <= i < |f| :: f[i] in f && !IsUpper(f[i]);
    assert AsciiFold(f) == f;
  }

  /** Matching sees labels as they are stored: respelling them in folded form changes nothing. */
  lemma SpellingIrrelevant(selector: Selector, issueType: string, labels: seq<string>, stored: seq<string>)
    requires |stored| == |labels| && forall i | 0 <= i < |labels| :: stored[i] == FoldLabel(labels[i])
    ensures Selects(selector, issueType, labels) <==> Selects(selector, issueType, stored)
  {
    forall i | 0 <= i < |labels| ensures FoldLabel(stored[i]) == FoldLabel(labels[i]) {
      FoldLabelIdempotent(labels[i]);
    }
    forall required ensures HasLabel(labels, required) <==> HasLabel(stored, required) {
      if HasLabel(labels, required) {
        var i :| 0 <= i < |labels| && FoldLabel(labels[i]) == FoldLabel(required);
        assert FoldLabel(stored[i]) == FoldLabel(required);
      }
    }
  }

  // ---------------------------------------------------------------- what policies contribute

  ghost predicate Contributing(p: Policy, issueType: string, labels: seq<string>) {
    p.status == Active && Selects(p.selector, issueType, labels)
  }

  ghost predicate Contributed(policies: seq<Policy>, issueType: string, labels: seq<string>, r: Requirement) {
    exists p :: p in policies && Contributing(p, issueType, labels) && r in p.requirements
  }

  predicate SameIdentity(a: Requirement, b: Requirement) { a.policyID == b.policyID && a.key == b.key }

  /** No two different contributed requirements share a policy and a key. */
  ghost predicate Unambiguous(policies: seq<Policy>, issueType: string, labels: seq<string>) {
    forall r, s | Contributed(policies, issueType, labels, r) && Contributed(policies, issueType, labels, s) ::
      SameIdentity(r, s) ==> r == s
  }

  /** What validation and storage establish: distinct policies, owned requirements, distinct keys in each policy. */
  ghost predicate Stored(policies: seq<Policy>) {
    && (forall p, q | p in policies && q in policies :: p.id == q.id ==> p == q)
    && (forall p, r | p in policies && r in p.requirements :: r.policyID == p.id)
    && (forall p, r, s | p in policies && r in p.requirements && s in p.requirements :: r.key == s.key ==> r == s)
  }

  lemma StoredUnambiguous(policies: seq<Policy>, issueType: string, labels: seq<string>)
    requires Stored(policies)
    ensures Unambiguous(policies, issueType, labels)
  {
    forall r, s | Contributed(policies, issueType, labels, r) && Contributed(policies, issueType, labels, s)
                  && SameIdentity(r, s)
      ensures r == s
    {
      var p :| p in policies && Contributing(p, issueType, labels) && r in p.requirements;
      var q :| q in policies && Contributing(q, issueType, labels) && s in q.requirements;
      assert p.id == q.id;
    }
  }

  // ---------------------------------------------------------------- the canonical union

  function IdentityKey(r: Requirement): seq<Part> { [Name(r.policyID), Name(r.key)] }

  predicate RequirementBefore(a: Requirement, b: Requirement) { KeyLess(IdentityKey(a), IdentityKey(b)) }

  lemma RequirementOrder()
    ensures IdentityOrder(RequirementBefore)
  {
    ByKey(IdentityKey, RequirementBefore);
    forall a, b ensures SameIdentity(a, b) <==> !RequirementBefore(a, b) && !RequirementBefore(b, a) {
      OrderedOrSame(a, b);
    }
  }

  lemma OrderedOrSame(a: Requirement, b: Requirement)
    ensures SameIdentity(a, b) <==> !RequirementBefore(a, b) && !RequirementBefore(b, a)
  {
    KeyTotal(IdentityKey(a), IdentityKey(b));
    if IdentityKey(a) == IdentityKey(b) {
      assert IdentityKey(a)[0] == IdentityKey(b)[0] && IdentityKey(a)[1] == IdentityKey(b)[1];
    }
  }

  ghost function Collect(policies: seq<Policy>, issueType: string, labels: seq<string>): seq<Requirement> {
    if policies == [] then []
    else
      var last := policies[|policies| - 1];
      Collect(policies[..|policies| - 1], issueType, labels)
      + (if Contributing(last, issueType, labels) then last.requirements else [])
  }

  /** Drops every element that repeats the identity of the one before it. */
  function Dedupe(s: seq<Requirement>): seq<Requirement> {
    if s == [] then []
    else
      var n := |s| - 1;
      if n > 0 && SameIdentity(s[n], s[n - 1]) then Dedupe(s[..n]) else Dedupe(s[..n]) + [s[n]]
  }

  /** The effective requirement set. */
  ghost function Effective(policies: seq<Policy>, issueType: string, labels: seq<string>): seq<Requirement> {
    Dedupe(Sort(Collect(policies, issueType, labels), RequirementBefore))
  }

  method MatchWorkflowPolicies(policies: seq<Policy>, issueType: string, labels: seq<string>)
    returns (deduped: seq<Requirement>)
    ensures deduped == Effective(policies, issueType, labels)
  {
    var matched: seq<Requirement> := [];
    for i := 0 to |policies|
      invariant matched == Collect(policies[..i], issueType, labels)
    {
      var policy := policies[i];
      assert policies[..i + 1][..i] == policies[..i];
      if policy.status != Active { continue; }
      var selected := Matches(policy.selector, issueType, labels);
      if !selected { continue; }
      for j := 0 to |policy.requirements|
        invariant matched == Collect(policies[..i], issueType, labels) + policy.requirements[..j]
      {
        matched := matched + [policy.requirements[j]];
      }
      assert policy.requirements[..|policy.requirements|] == policy.requirements;
    }
    assert policies[..|policies|] == policies;
    matched := Sort(matched, RequirementBefore);
    deduped := [];
    for i := 0 to |matched|
      invariant deduped == Dedupe(matched[..i])
    {
      assert matched[..i + 1][..i] == matched[..i];
      if i > 0 && SameIdentity(matched[i], matched[i - 1]) { continue; }
      deduped := deduped + [matched[i]];
    }
    assert matched[..|matched|] == matched;
  }

  lemma {:induction false} CollectExact(policies: seq<Policy>, issueType: string, labels: seq<string>, r: Requirement)
    ensures r in Collect(policies, issueType, labels) <==> Contributed(policies, issueType, labels, r)
  {
    if policies != [] {
      var n := |policies| - 1;
      CollectExact(policies[..n], issueType, labels, r);
      assert policies == policies[..n] + [policies[n]];
      assert forall p :: p in policies <==> p in policies[..n] || p == policies[n];
    }
  }

  ghost predicate Covers(d: seq<Requirement>, r: Requirement) { exists q :: q in d && SameIdentity(q, r) }

  /** `d` holds elements of `s` only, and one of every identity in it. */
  ghost predicate Thins(d: seq<Requirement>, s: seq<Requirement>) {
    (forall r | r in d :: r in s) && (forall r | r in s :: Covers(d, r))
  }

  lemma ThinsRepeat(d: seq<Requirement>, s: seq<Requirement>, next: Requirement)
    requires Thins(d, s) && Covers(d, next)
    ensures Thins(d, s + [next])
  {
  }

  lemma ThinsNext(d: seq<Requirement>, s: seq<Requirement>, next: Requirement)
    requires Thins(d, s)
    ensures Thins(d + [next], s + [next])
  {
    var after := d + [next];
    assert after[|d|] == next && next in after;
    forall r | r in s + [next] ensures Covers(after, r) {
      if r in s {
        var q :| q in d && SameIdentity(q, r);
        assert q in after;
      }
    }
  }

  ghost predicate SameEnd(d: seq<Requirement>, s: seq<Requirement>) {
    s != [] ==> d != [] && SameIdentity(d[|d| - 1], s[|s| - 1])
  }

  type Less = (Requirement, Requirement) -> bool

  /** An order that only ties requirements of the same identity. */
  ghost predicate IdentityOrder(less: Less) {
    WeakOrder(less) && forall a, b :: SameIdentity(a, b) <==> !less(a, b) && !less(b, a)
  }

  lemma AppendStrict(d: seq<Requirement>, previous: Requirement, next: Requirement, less: Less)
    requires IdentityOrder(less) && StrictlySorted(d, less) && d != [] && SameIdentity(d[|d| - 1], previous)
    requires less(previous, next)
    ensures StrictlySorted(d + [next], less)
  {
    var last := d[|d| - 1];
    assert less(previous, last) || less(last, next);
    forall i | 0 <= i < |d| ensures less(d[i], next) {
      if i < |d| - 1 { assert less(d[i], last); }
    }
  }

  ghost predicate Deduplicates(d: seq<Requirement>, s: seq<Requirement>, less: Less) {
    StrictlySorted(d, less) && Thins(d, s) && SameEnd(d, s)
  }

  lemma DedupeSkip(d: seq<Requirement>, s: seq<Requirement>, next: Requirement, whole: seq<Requirement>,
                 less: Less)
    requires IdentityOrder(less) && Deduplicates(d, s, less) && s != [] && SameIdentity(next, s[|s| - 1])
    requires whole == s + [next]
    ensures Deduplicates(d, whole, less)
  {
    assert d[|d| - 1] in d;
    ThinsRepeat(d, s, next);
  }

  lemma DedupeAppend(d: seq<Requirement>, s: seq<Requirement>, next: Requirement, whole: seq<Requirement>,
                 less: Less)
    requires IdentityOrder(less) && Deduplicates(d, s, less) && (s != [] ==> less(s[|s| - 1], next))
    requires whole == s + [next]
    ensures Deduplicates(d + [next], whole, less)
  {
    if s != [] {
      AppendStrict(d, s[|s| - 1], next, less);
    } else {
      EmptyTogether(d, s);
    }
    ThinsNext(d, s, next);
  }

  lemma DedupeOneMore(s: seq<Requirement>, t: seq<Requirement>, next: Requirement, less: Less)
    requires IdentityOrder(less) && s == t + [next] && Deduplicates(Dedupe(t), t, less)
    requires t != [] ==> !less(next, t[|t| - 1])
    ensures Deduplicates(Dedupe(s), s, less)
  {
    assert s[..|t|] == t && s[|t|] == next;
    if t != [] && SameIdentity(next, t[|t| - 1]) {
      DedupeSkip(Dedupe(t), t, next, s, less);
    } else {
      DedupeAppend(Dedupe(t), t, next, s, less);
    }
  }

  /** Deduplicating a sorted list keeps one element of every identity, strictly sorted. */
  lemma {:induction false} DedupeStrict(s: seq<Requirement>, less: Less)
    requires IdentityOrder(less) && Sorted(s, less)
    ensures Deduplicates(Dedupe(s), s, less)
  {
    if s != [] {
      var n := |s| - 1;
      DedupeStrict(s[..n], less);
      DedupeOneMore(s, s[..n], s[n], less);
    }
  }

  /** For any policies: sorted by policy then key without repeats, nothing foreign, every identity kept. */
  lemma EffectiveIsUnion(policies: seq<Policy>, issueType: string, labels: seq<string>)
    ensures var e := Effective(policies, issueType, labels);
            && StrictlySorted(e, RequirementBefore)
            && (forall r | r in e :: Contributed(policies, issueType, labels, r))
            && (forall r | Contributed(policies, issueType, labels, r) :: Covers(e, r))
  {
    var c := Collect(policies, issueType, labels);
    var s := Sort(c, RequirementBefore);
    RequirementOrder();
    SortSorted(c, RequirementBefore);
    SortContents(c, RequirementBefore);
    SameContentsSameElements(s, c);
    DedupeStrict(s, RequirementBefore);
    forall r ensures r in c <==> Contributed(policies, issueType, labels, r) {
      CollectExact(policies, issueType, labels, r);
    }
  }

  lemma StrictlySortedIdentities(e: seq<Requirement>, r: Requirement, s: Requirement)
    requires StrictlySorted(e, RequirementBefore) && r in e && s in e && SameIdentity(r, s)
    ensures r == s
  {
    var i :| 0 <= i < |e| && e[i] == r;
    var j :| 0 <= j < |e| && e[j] == s;
    OrderedOrSame(r, s);
  }

  /** Nothing contributed is lost exactly when no two contributed requirements clash. */
  lemma EffectiveExactIffUnambiguous(policies: seq<Policy>, issueType: string, labels: seq<string>)
    ensures (forall r :: r in Effective(policies, issueType, labels) <==> Contributed(policies, issueType, labels, r))
       <==> Unambiguous(policies, issueType, labels)
  {
    var e := Effective(policies, issueType, labels);
    EffectiveIsUnion(policies, issueType, labels);
    if forall r :: r in e <==> Contributed(policies, issueType, labels, r) {
      forall r, s | Contributed(policies, issueType, labels, r) && Contributed(policies, issueType, labels, s)
                    && SameIdentity(r, s)
        ensures r == s
      {
        StrictlySortedIdentities(e, r, s);
      }
    }
    if Unambiguous(policies, issueType, labels) {
      forall r | Contributed(policies, issueType, labels, r) ensures r in e {
        assert Covers(e, r);
        var q :| q in e && SameIdentity(q, r);
      }
    }
  }

  lemma ContributedTogether(a: seq<Policy>, b: seq<Policy>, issueType: string, labels: seq<string>)
    requires Unambiguous(a, issueType, labels) && forall p :: p in a <==> p in b
    ensures forall r :: Contributed(a, issueType, labels, r) <==> Contributed(b, issueType, labels, r)
    ensures Unambiguous(b, issueType, labels)
  {
  }

  lemma EffectiveExact(policies: seq<Policy>, issueType: string, labels: seq<string>)
    requires Unambiguous(policies, issueType, labels)
    ensures var e := Effective(policies, issueType, labels);
            StrictlySorted(e, RequirementBefore) && forall r :: r in e <==> Contributed(policies, issueType, labels, r)
  {
    EffectiveIsUnion(policies, issueType, labels);
    EffectiveExactIffUnambiguous(policies, issueType, labels);
  }

  /** The effective set is canonical: reading the same policies in another order gives the same sequence. */
  lemma EffectiveIgnoresOrder(a: seq<Policy>, b: seq<Policy>, issueType: string, labels: seq<string>)
    requires Unambiguous(a, issueType, labels) && forall p :: p in a <==> p in b
    ensures Effective(a, issueType, labels) == Effective(b, issueType, labels)
  {
    ContributedTogether(a, b, issueType, labels);
    EffectiveExact(a, issueType, labels);
    EffectiveExact(b, issueType, labels);
    RequirementOrder();
    StrictlySortedUnique(Effective(a, issueType, labels), Effective(b, issueType, labels), RequirementBefore);
  }
}
