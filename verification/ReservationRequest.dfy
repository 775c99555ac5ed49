/**
 Batch acquisition: a request is normalized, exact duplicates collapse, and any other overlap inside
 the request refuses it.
 */
module ReservationRequest {
  import opened Reservations
  import opened ReservationOverlap

  datatype Identity = Identity(kind: Kind, key: string)

  datatype PreparedResource = PreparedResource(index: nat, resource: Normalized)

  const MAX_RESOURCES := 50

  datatype RequestError =
    | Required | MaxItems | InvalidItem(index: nat, error: Error) | InternalOverlap(index: nat)

  datatype Outcome = Accepted(prepared: seq<PreparedResource>) | Refused(error: RequestError)

  function IdentityOf(r: Normalized): Identity { Identity(r.kind, Key(r)) }

  // ---------------------------------------------------------------- what acceptance means

  ghost predicate Normalizes(resources: seq<Resource>, i: nat)
    requires i < |resources|
  {
    Normalize(resources[i]).Ok?
  }

  ghost function At(resources: seq<Resource>, i: nat): Normalized
    requires i < |resources| && Normalizes(resources, i)
  {
    Normalize(resources[i]).value
  }

  /** Two items may stand in one request: exact duplicates, or disjoint languages. */
  ghost predicate Compatible(a: Normalized, b: Normalized) {
    IdentityOf(a) == IdentityOf(b) || !Meet(a, b)
  }

  /** Every item normalizes, and every two are duplicates or disjoint. */
  ghost predicate Consistent(resources: seq<Resource>) {
    && (forall i | 0 <= i < |resources| :: Normalizes(resources, i))
    && forall i, j | 0 <= i < j < |resources| :: Compatible(At(resources, i), At(resources, j))
  }

  /**
   The prepared list represents the request: increasing indices of items that are pairwise disjoint,
   and every item a duplicate of exactly one of them, its first occurrence.
   */
  ghost predicate Represents(prepared: seq<PreparedResource>, resources: seq<Resource>) {
    && (forall k | 0 <= k < |prepared| ::
          prepared[k].index < |resources| && Normalize(resources[prepared[k].index]) == Ok(prepared[k].resource))
    && (forall k, m | 0 <= k < m < |prepared| ::
          prepared[k].index < prepared[m].index && !Meet(prepared[k].resource, prepared[m].resource))
    && (forall i | 0 <= i < |resources| ::
          Normalizes(resources, i) && exists k: nat :: StandsFor(prepared, k, resources, i))
  }

  ghost predicate StandsFor(prepared: seq<PreparedResource>, k: nat, resources: seq<Resource>, i: nat)
    requires i < |resources| && Normalizes(resources, i)
  {
    k < |prepared| && IdentityOf(prepared[k].resource) == IdentityOf(At(resources, i)) && prepared[k].index <= i
  }

  // ---------------------------------------------------------------- consequences

  lemma MeetSymmetric(a: Normalized, b: Normalized)
    ensures Meet(a, b) <==> Meet(b, a)
  {
    if Meet(a, b) { var t :| RealTarget(t) && Covers(a, t) && Covers(b, t); assert Meet(b, a); }
    if Meet(b, a) { var t :| RealTarget(t) && Covers(b, t) && Covers(a, t); assert Meet(a, b); }
  }

  /** Duplicates are interchangeable in overlap questions. */
  lemma DuplicateMeets(a: Normalized, b: Normalized, c: Normalized)
    requires WellFormed(a) && WellFormed(b) && IdentityOf(a) == IdentityOf(b)
    ensures Meet(a, c) <==> Meet(b, c)
  {
    forall t ensures Covers(a, t) <==> Covers(b, t) { SameKeySameLanguage(a, b, t); }
    if Meet(a, c) { var t :| RealTarget(t) && Covers(a, t) && Covers(c, t); assert Covers(b, t); }
    if Meet(b, c) { var t :| RealTarget(t) && Covers(b, t) && Covers(c, t); assert Covers(a, t); }
  }

  lemma AtWellFormed(resources: seq<Resource>, i: nat)
    requires i < |resources| && Normalizes(resources, i)
    ensures WellFormed(At(resources, i))
  {
    NormalizeWellFormed(resources[i]);
  }

  /** A represented request is consistent. */
  lemma RepresentedConsistent(prepared: seq<PreparedResource>, resources: seq<Resource>)
    requires Represents(prepared, resources)
    ensures Consistent(resources)
  {
    forall i, j | 0 <= i < j < |resources| ensures Compatible(At(resources, i), At(resources, j)) {
      assert Normalizes(resources, i) && Normalizes(resources, j);
      var k: nat :| StandsFor(prepared, k, resources, i);
      var m: nat :| StandsFor(prepared, m, resources, j);
      RepresentativesDecide(prepared, resources, i, j, k, m);
    }
  }

  lemma RepresentativesDecide(
    prepared: seq<PreparedResource>, resources: seq<Resource>, i: nat, j: nat, k: nat, m: nat)
    requires Represents(prepared, resources) && i < |resources| && j < |resources|
    requires StandsFor(prepared, k, resources, i) && StandsFor(prepared, m, resources, j)
    ensures Compatible(At(resources, i), At(resources, j))
  {
    var a, b := prepared[k].resource, prepared[m].resource;
    var x, y := At(resources, i), At(resources, j);
    AtWellFormed(resources, i);
    AtWellFormed(resources, j);
    AtWellFormed(resources, prepared[k].index);
    AtWellFormed(resources, prepared[m].index);
    if k != m {
      MeetSymmetric(a, b);
      assert !Meet(a, b);
      DuplicateMeets(a, x, b);
      MeetSymmetric(b, x);
      DuplicateMeets(b, y, x);
      MeetSymmetric(y, x);
    }
  }

  /** Each item has one representative only, and it denotes the same language. */
  lemma OneRepresentative(prepared: seq<PreparedResource>, resources: seq<Resource>, i: nat, k: nat, m: nat, t: Target)
    requires Represents(prepared, resources) && i < |resources|
    requires StandsFor(prepared, k, resources, i) && StandsFor(prepared, m, resources, i)
    ensures k == m && (Covers(prepared[k].resource, t) <==> Covers(At(resources, i), t))
  {
    AtWellFormed(resources, i);
    AtWellFormed(resources, prepared[k].index);
    AtWellFormed(resources, prepared[m].index);
    SameKeySameLanguage(prepared[k].resource, At(resources, i), t);
    var a, b := prepared[k].resource, prepared[m].resource;
    OverlapsReflexive(b);
    DuplicateMeets(a, b, b);
    MeetSymmetric(a, b);
  }

  // ---------------------------------------------------------------- one item

  ghost predicate SeenIs(seen: set<Identity>, prepared: seq<PreparedResource>) {
    forall id :: id in seen <==> exists k :: 0 <= k < |prepared| && IdentityOf(prepared[k].resource) == id
  }

  /** A duplicate of a prepared item needs nothing new. */
  lemma SkipDuplicate(prepared: seq<PreparedResource>, resources: seq<Resource>, i: nat, k: nat)
    requires i < |resources| && Represents(prepared, resources[..i]) && Normalizes(resources, i)
    requires k < |prepared| && IdentityOf(prepared[k].resource) == IdentityOf(At(resources, i))
    ensures Represents(prepared, resources[..i + 1])
  {
    hide Meet, Normalize, IdentityOf;
    var next := resources[..i + 1];
    forall j | 0 <= j < |next| ensures Normalizes(next, j) && exists m: nat :: StandsFor(prepared, m, next, j) {
      if j < i {
        assert next[j] == resources[..i][j];
        assert Normalizes(resources[..i], j);
        var m: nat :| StandsFor(prepared, m, resources[..i], j);
        assert StandsFor(prepared, m, next, j);
      } else {
        assert StandsFor(prepared, k, next, j);
      }
    }
    assert forall k | 0 <= k < |prepared| :: next[prepared[k].index] == resources[..i][prepared[k].index];
  }

  /** An item disjoint from all prepared ones joins them. */
  lemma AppendDisjoint(prepared: seq<PreparedResource>, resources: seq<Resource>, i: nat)
    requires i < |resources| && Represents(prepared, resources[..i]) && Normalizes(resources, i)
    requires forall k | 0 <= k < |prepared| :: !Meet(At(resources, i), prepared[k].resource)
    ensures Represents(prepared + [PreparedResource(i, At(resources, i))], resources[..i + 1])
  {
    hide Meet, Normalize, IdentityOf;
    var next := resources[..i + 1];
    var all := prepared + [PreparedResource(i, At(resources, i))];
    forall j | 0 <= j < |next| ensures Normalizes(next, j) && exists m: nat :: StandsFor(all, m, next, j) {
      if j < i {
        assert next[j] == resources[..i][j];
        assert Normalizes(resources[..i], j);
        var m: nat :| StandsFor(prepared, m, resources[..i], j);
        assert StandsFor(all, m, next, j);
      } else {
        assert StandsFor(all, |prepared|, next, j);
      }
    }
    forall k, m | 0 <= k < m < |all|
      ensures all[k].index < all[m].index && !Meet(all[k].resource, all[m].resource)
    {
      if m == |prepared| { MeetSymmetric(all[k].resource, all[m].resource); }
    }
    assert forall k | 0 <= k < |prepared| :: next[prepared[k].index] == resources[..i][prepared[k].index];
  }

  /** An item that meets a prepared item without duplicating any spoils the request. */
  lemma OverlapSpoils(prepared: seq<PreparedResource>, resources: seq<Resource>, i: nat, k: nat)
    requires i < |resources| && Represents(prepared, resources[..i]) && Normalizes(resources, i)
    requires k < |prepared| && Meet(At(resources, i), prepared[k].resource)
    requires IdentityOf(prepared[k].resource) != IdentityOf(At(resources, i))
    ensures !Consistent(resources[..i + 1])
  {
    var next, first := resources[..i + 1], prepared[k].index;
    assert next[first] == resources[..i][first] && next[i] == resources[i];
    MeetSymmetric(At(resources, i), prepared[k].resource);
    assert Normalizes(next, first) && Normalizes(next, i);
    assert !Compatible(At(next, first), At(next, i));
  }

  lemma PrefixConsistent(resources: seq<Resource>, i: nat)
    requires i <= |resources| && Consistent(resources)
    ensures Consistent(resources[..i])
  {
    var prefix := resources[..i];
    forall j | 0 <= j < |prefix| ensures Normalizes(prefix, j) { assert Normalizes(resources, j); }
    forall j, k | 0 <= j < k < |prefix| ensures Compatible(At(prefix, j), At(prefix, k)) {
      assert Compatible(At(resources, j), At(resources, k));
    }
  }

  // ---------------------------------------------------------------- the operation

  /** The inner loop: the first prepared item the candidate overlaps, or none. */
  method FirstOverlap(candidate: Normalized, prepared: seq<PreparedResource>) returns (k: nat)
    requires WellFormed(candidate) && forall j | 0 <= j < |prepared| :: WellFormed(prepared[j].resource)
    ensures k <= |prepared| && (k < |prepared| ==> Meet(candidate, prepared[k].resource))
    ensures forall j | 0 <= j < k :: !Meet(candidate, prepared[j].resource)
  {
    k := 0;
    while k < |prepared|
      invariant 0 <= k <= |prepared| && forall j | 0 <= j < k :: !Meet(candidate, prepared[j].resource)
    {
      var overlap := Overlaps(candidate, prepared[k].resource);
      if overlap { return; }
      k := k + 1;
    }
  }

  datatype ItemRefusal = Fine | Refusal(error: RequestError)

  /** What a refusal at item `i` says about the request. */
  ghost predicate Explains(error: RequestError, resources: seq<Resource>, i: nat)
    requires i < |resources|
  {
    && Consistent(resources[..i])
    && if Normalizes(resources, i) then error == InternalOverlap(i) && !Consistent(resources[..i + 1])
       else error == InvalidItem(i, Normalize(resources[i]).error)
  }

  lemma ExplainedInconsistent(error: RequestError, resources: seq<Resource>, i: nat)
    requires i < |resources| && Explains(error, resources, i)
    ensures !Consistent(resources)
  {
    if Normalizes(resources, i) && Consistent(resources) { PrefixConsistent(resources, i + 1); }
  }

  /** One turn of the loop over the request. */
  method PrepareItem(resources: seq<Resource>, i: nat, prepared: seq<PreparedResource>, seen: set<Identity>)
    returns (refusal: ItemRefusal, prepared': seq<PreparedResource>, seen': set<Identity>)
    requires i < |resources| && Represents(prepared, resources[..i]) && SeenIs(seen, prepared)
    ensures refusal.Fine? ==> Represents(prepared', resources[..i + 1]) && SeenIs(seen', prepared')
    ensures refusal.Refusal? ==> Explains(refusal.error, resources, i) && !Consistent(resources)
  {
    RepresentedConsistent(prepared, resources[..i]);
    prepared', seen' := prepared, seen;
    var normalized := Normalize(resources[i]);
    if normalized.Err? {
      ExplainedInconsistent(InvalidItem(i, normalized.error), resources, i);
      return Refusal(InvalidItem(i, normalized.error)), prepared, seen;
    }
    var candidate := normalized.value;
    assert Normalizes(resources, i) && candidate == At(resources, i);
    var identity := Identity(candidate.kind, Key(candidate));
    if identity in seen {
      ghost var k :| 0 <= k < |prepared| && IdentityOf(prepared[k].resource) == identity;
      SkipDuplicate(prepared, resources, i, k);
      return Fine, prepared, seen;
    }
    PreparedWellFormed(prepared, resources, i);
    var k := FirstOverlap(candidate, prepared);
    if k < |prepared| {
      OverlapSpoils(prepared, resources, i, k);
      ExplainedInconsistent(InternalOverlap(i), resources, i);
      return Refusal(InternalOverlap(i)), prepared, seen;
    }
    AppendDisjoint(prepared, resources, i);
    SeenAppend(seen, prepared, PreparedResource(i, candidate));
    return Fine, prepared + [PreparedResource(i, candidate)], seen + {identity};
  }

  /**
   `PrepareReservationRequest`: accepts a request within bounds exactly when it is consistent, and
   then represents it; a refusal names the first item that spoils it.
   */
  method PrepareReservationRequest(resources: seq<Resource>) returns (outcome: Outcome)
    ensures outcome.Accepted? <==> 1 <= |resources| <= 50 && Consistent(resources)
    ensures outcome.Accepted? ==> Represents(outcome.prepared, resources)
    ensures outcome == Refused(Required) <==> resources == []
    ensures outcome == Refused(MaxItems) <==> |resources| > 50
    ensures outcome.Refused? && (outcome.error.InvalidItem? || outcome.error.InternalOverlap?) ==>
              outcome.error.index < |resources| && Explains(outcome.error, resources, outcome.error.index)
  {
    if |resources| == 0 { return Refused(Required); }
    if |resources| > MAX_RESOURCES { return Refused(MaxItems); }
    var prepared: seq<PreparedResource>, seen: set<Identity> := [], {};
    for i := 0 to |resources|
      invariant Represents(prepared, resources[..i]) && SeenIs(seen, prepared)
    {
      var refusal;
      refusal, prepared, seen := PrepareItem(resources, i, prepared, seen);
      if refusal.Refusal? { return Refused(refusal.error); }
    }
    assert resources[..|resources|] == resources;
    RepresentedConsistent(prepared, resources);
    return Accepted(prepared);
  }

  lemma PreparedWellFormed(prepared: seq<PreparedResource>, resources: seq<Resource>, i: nat)
    requires i < |resources| && Represents(prepared, resources[..i]) && Normalizes(resources, i)
    ensures WellFormed(At(resources, i)) && forall j | 0 <= j < |prepared| :: WellFormed(prepared[j].resource)
  {
    NormalizeWellFormed(resources[i]);
    forall j | 0 <= j < |prepared| ensures WellFormed(prepared[j].resource) {
      NormalizeWellFormed(resources[..i][prepared[j].index]);
    }
  }

  lemma SeenAppend(seen: set<Identity>, prepared: seq<PreparedResource>, last: PreparedResource)
    requires SeenIs(seen, prepared)
    ensures SeenIs(seen + {IdentityOf(last.resource)}, prepared + [last])
  {
    var all := prepared + [last];
    forall id | id in seen + {IdentityOf(last.resource)}
      ensures exists k :: 0 <= k < |all| && IdentityOf(all[k].resource) == id
    {
      if id in seen {
        var k :| 0 <= k < |prepared| && IdentityOf(prepared[k].resource) == id;
        assert IdentityOf(all[k].resource) == id;
      } else {
        assert IdentityOf(all[|prepared|].resource) == id;
      }
    }
    forall k | 0 <= k < |all| ensures IdentityOf(all[k].resource) in seen + {IdentityOf(last.resource)} {
      if k < |prepared| { assert IdentityOf(prepared[k].resource) in seen; }
    }
  }
}
