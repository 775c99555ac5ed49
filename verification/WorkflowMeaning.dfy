/**
 What policies select and in which order requirements and sources come, in the terms of their inputs:
 labels up to case and surrounding white space, identifiers character by character.
 */
module WorkflowMeaning {
  import opened Ordering
  import opened ReservationInputs
  import opened Reservations
  import opened WorkflowGates
  import opened WorkflowPolicies

  // ---------------------------------------------------------------- labels

  /** Without the white space around them, the labels agree up to the case of ASCII letters. */
  ghost predicate SameLabel(a: string, b: string) {
    exists x, y :: Core(a, x) && Core(b, y) && SameUpToCase(x, y)
  }

  lemma LabelExact(a: string, b: string)
    ensures FoldLabel(a) == FoldLabel(b) <==> SameLabel(a, b)
  {
    hide TrimSpace, AsciiFold, SameUpToCase, Core;
    TrimExact(a, TrimSpace(a));
    TrimExact(b, TrimSpace(b));
    FoldExact(TrimSpace(a), TrimSpace(b));
    if SameLabel(a, b) {
      var x, y :| Core(a, x) && Core(b, y) && SameUpToCase(x, y);
      TrimExact(a, x);
      TrimExact(b, y);
    }
  }

  ghost predicate Labelled(labels: seq<string>, required: string) {
    exists l :: l in labels && SameLabel(l, required)
  }

  /** Which issues an active policy applies to: no epic, and otherwise by type and by every label it asks for. */
  lemma ContributingExact(p: Policy, issueType: string, labels: seq<string>)
    ensures Contributing(p, issueType, labels) <==>
            && p.status == Active && issueType != "epic"
            && (p.selector.issueTypes == [] || issueType in p.selector.issueTypes)
            && forall required | required in p.selector.labelsAll :: Labelled(labels, required)
  {
    forall required ensures HasLabel(labels, required) <==> Labelled(labels, required) {
      LabelledExact(labels, required);
    }
  }

  lemma LabelledExact(labels: seq<string>, required: string)
    ensures HasLabel(labels, required) <==> Labelled(labels, required)
  {
    hide FoldLabel, SameLabel;
    forall l ensures FoldLabel(l) == FoldLabel(required) <==> SameLabel(l, required) { LabelExact(l, required); }
    if Labelled(labels, required) {
      var l :| l in labels && SameLabel(l, required);
      var i :| 0 <= i < |labels| && labels[i] == l;
      assert FoldLabel(labels[i]) == FoldLabel(required);
    }
  }

  // ---------------------------------------------------------------- order

  /** By policy, and within a policy by key. */
  ghost predicate Ahead(policyID: string, key: string, otherID: string, otherKey: string) {
    Precedes(policyID, otherID) || (policyID == otherID && Precedes(key, otherKey))
  }

  lemma KeysAhead(policyID: string, key: string, otherID: string, otherKey: string)
    ensures KeyLess([Name(policyID), Name(key)], [Name(otherID), Name(otherKey)])
       <==> Ahead(policyID, key, otherID, otherKey)
  {
    hide KeyLess, Precedes;
    var a, b := [Name(key)] + [], [Name(otherKey)] + [];
    assert [Name(policyID), Name(key)] == [Name(policyID)] + a;
    assert [Name(otherID), Name(otherKey)] == [Name(otherID)] + b;
    NameFirst(policyID, otherID, a, b);
    NameFirst(key, otherKey, [], []);
    NothingLess();
  }

  lemma SourcesAhead(a: SourceRef, b: SourceRef)
    ensures SourceBefore(a, b) <==> Precedes(a.policyID, b.policyID)
  {
    hide KeyLess, Precedes;
    assert [Name(a.policyID)] == [Name(a.policyID)] + [] && [Name(b.policyID)] == [Name(b.policyID)] + [];
    NameFirst(a.policyID, b.policyID, [], []);
    NothingLess();
  }

  ghost predicate InOrder(requirements: seq<Requirement>) {
    forall i, j | 0 <= i < j < |requirements| ::
      Ahead(requirements[i].policyID, requirements[i].key, requirements[j].policyID, requirements[j].key)
  }

  lemma StrictIsOrdered(requirements: seq<Requirement>)
    ensures StrictlySorted(requirements, RequirementBefore) <==> InOrder(requirements)
  {
    hide KeyLess, Ahead;
    forall a: Requirement, b: Requirement
      ensures RequirementBefore(a, b) <==> Ahead(a.policyID, a.key, b.policyID, b.key)
    {
      KeysAhead(a.policyID, a.key, b.policyID, b.key);
    }
  }

  /** The effective set of any policies comes by policy and key, and so without repeats. */
  lemma EffectiveInOrder(policies: seq<Policy>, issueType: string, labels: seq<string>)
    ensures InOrder(Effective(policies, issueType, labels))
  {
    EffectiveIsUnion(policies, issueType, labels);
    StrictIsOrdered(Effective(policies, issueType, labels));
  }

  /** A snapshot lists the requirements by policy and key, and the policies by ID. */
  lemma SnapshotInOrder(snapshot: Snapshot, o: Origin, digest: Payload -> string)
    requires Records(snapshot, o, digest)
    ensures InOrder(snapshot.requirements)
    ensures forall i, j | 0 <= i < j < |snapshot.sources| ::
              Precedes(snapshot.sources[i].policyID, snapshot.sources[j].policyID)
  {
    hide SourceBefore, InOrder;
    StrictIsOrdered(snapshot.requirements);
    forall i, j | 0 <= i < j < |snapshot.sources|
      ensures Precedes(snapshot.sources[i].policyID, snapshot.sources[j].policyID)
    {
      SourcesAhead(snapshot.sources[i], snapshot.sources[j]);
    }
  }

  /** What a gate leaves unmet comes in the same order. */
  lemma UnmetInOrder(point: Point, policies: seq<Policy>, issueType: string, labels: seq<string>, evidence: Evidence)
    requires !point.UnknownPoint? && Stored(policies) && PoliciesKnown(policies, issueType, labels)
    ensures KindsKnown(Effective(policies, issueType, labels))
    ensures var unmet := Expected(point, Effective(policies, issueType, labels), evidence).evaluation.unmet;
            forall i, j | 0 <= i < j < |unmet| ::
              Ahead(unmet[i].policyID, unmet[i].key, unmet[j].policyID, unmet[j].key)
  {
    hide Ahead;
    GateMeansPolicies(point, policies, issueType, labels, evidence);
    var unmet := Expected(point, Effective(policies, issueType, labels), evidence).evaluation.unmet;
    forall i, j | 0 <= i < j < |unmet|
      ensures Ahead(unmet[i].policyID, unmet[i].key, unmet[j].policyID, unmet[j].key)
    {
      assert UnmetBefore(unmet[i], unmet[j]);
      KeysAhead(unmet[i].policyID, unmet[i].key, unmet[j].policyID, unmet[j].key);
    }
  }
}
