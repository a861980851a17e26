/**
 What each admission state requires, read off the fields of the registration, the anchors and the evidence
 alone, and the evaluator's states in these terms.
 */
module AdmissionFields {
  import opened Outcomes
  import opened Evaluator
  import opened Precedence

  // ---------------------------------------------------------------- one record

  ghost predicate AboutSource(e: Evidence<int>, i: Input<int>) {
    e in i.evidence && e.sourceId == i.registration.sourceId
  }

  /** The record and its warrant both name the registered version. */
  ghost predicate OfVersion(e: Evidence<int>, i: Input<int>) {
    AboutSource(e, i) && e.sourceVersion == e.warrant.sourceVersion == i.registration.sourceVersion
  }

  /** ... and both name the registered digest. */
  ghost predicate OfDigest(e: Evidence<int>, i: Input<int>) {
    OfVersion(e, i) && e.sourceDigest == e.warrant.sourceDigest == i.registration.sourceDigest
  }

  /** The requested jurisdiction and applicability, in the record and in its warrant. */
  ghost predicate InScope(e: Evidence<int>, i: Input<int>) {
    && e.jurisdiction == e.warrant.jurisdiction == i.jurisdiction
    && i.applicability in e.applicabilityScope && i.applicability in e.warrant.applicabilityScope
  }

  ghost predicate Applies(e: Evidence<int>, i: Input<int>) {
    OfDigest(e, i) && InScope(e, i)
  }

  predicate Passed(stamp: Option<int>, at: int) {
    match stamp
    case None => false
    case Some(t) => t <= at
  }

  /** The record and its warrant have begun. */
  ghost predicate Begun(e: Evidence<int>, at: int) {
    e.lifecycle.effectiveFrom <= at && e.warrant.lifecycle.effectiveFrom <= at
  }

  /** The record or its warrant has run out. */
  ghost predicate RunOut(e: Evidence<int>, at: int) {
    Passed(e.lifecycle.effectiveUntil, at) || Passed(e.warrant.lifecycle.effectiveUntil, at)
  }

  ghost predicate Replaced(e: Evidence<int>, at: int) {
    Passed(e.lifecycle.supersededAt, at)
  }

  /** The record or its warrant has been withdrawn, by date or by status. */
  ghost predicate Withdrawn(e: Evidence<int>, at: int) {
    || Passed(e.lifecycle.revokedAt, at) || Passed(e.warrant.lifecycle.revokedAt, at)
    || e.warrant.status == RevokedWarrant
  }

  ghost predicate InForceAt(e: Evidence<int>, i: Input<int>, at: int) {
    && InScope(e, i) && Begun(e, at) && !RunOut(e, at) && !Replaced(e, at) && !Withdrawn(e, at)
    && e.warrant.status != SuspendedWarrant
  }

  // ---------------------------------------------------------------- the fifteen states

  ghost predicate Requires(s: AdmissionState, i: Input<int>, at: int) {
    var r := i.registration;
    match s
    case CandidateInputInvalid => !exists a :: a in i.anchors && forall b | b in i.anchors :: b.sourceId == r.sourceId
    case AuthorityRegistryUnavailable => r.availability != Available
    case AuthorityEvidenceStale => r.availability != Unavailable && r.freshness == Stale
    case SourceNotRegistered => r.registered == false
    case SourceVersionMismatch => |i.evidence| > 0 && forall e | AboutSource(e, i) :: !OfVersion(e, i)
    case SourceDigestMismatch =>
      || !(forall a | a in i.anchors :: a.contentHash == r.sourceDigest)
      || (|i.evidence| > 0 && forall e | AboutSource(e, i) :: !OfDigest(e, i))
    case MissingAuthorityEvidence => forall e | AboutSource(e, i) :: !OfDigest(e, i)
    case OutOfScope =>
      || r.jurisdiction != i.jurisdiction || i.applicability !in r.applicabilityScope
      || forall e | OfDigest(e, i) :: !InScope(e, i)
    case NotYetEffective => at < r.lifecycle.effectiveFrom || forall e | Applies(e, i) :: !Begun(e, at)
    case Expired => Passed(r.lifecycle.effectiveUntil, at) || forall e | Applies(e, i) :: RunOut(e, at)
    case Superseded => Passed(r.lifecycle.supersededAt, at) || forall e | Applies(e, i) :: Replaced(e, at)
    case Revoked => Passed(r.lifecycle.revokedAt, at) || forall e | Applies(e, i) :: Withdrawn(e, at)
    case ConflictingAuthority => !OneBasis(i, at)
    case AdmissionNotEstablished => forall e | Applies(e, i) :: !InForceAt(e, i, at)
    case Admitted => true
  }

  /** All records about the source that are in force, of whatever version, rest on one basis. */
  ghost predicate OneBasis(i: Input<int>, at: int) {
    forall d, e | AboutSource(d, i) && AboutSource(e, i) && InForceAt(d, i, at) && InForceAt(e, i, at) ::
      d.authorityBasisRef == e.authorityBasisRef
  }

  ghost function Requirements(i: Input<int>, at: int): AdmissionState -> bool {
    s => Requires(s, i, at)
  }

  lemma RecordFacts(e: Evidence<int>, i: Input<int>)
    ensures AboutSource(e, i) <==> IsRelevant(e, i)
    ensures OfVersion(e, i) <==> IsRelevant(e, i) && BindsVersion(e, i)
    ensures OfDigest(e, i) <==> IsBound(e, i)
    ensures Applies(e, i) <==> IsScoped(e, i)
  {
  }

  lemma RecordTimes(e: Evidence<int>, i: Input<int>, at: int)
    ensures Begun(e, at) <==> !EvidenceNotYetEffective(e, at)
    ensures RunOut(e, at) <==> EvidenceExpired(e, at)
    ensures Replaced(e, at) <==> EvidenceSuperseded(e, at)
    ensures Withdrawn(e, at) <==> EvidenceRevoked(e, at)
    ensures InForceAt(e, i, at) <==> Operative(e, i, at)
  {
  }

  lemma AnchorsAgree(i: Input<int>)
    ensures (exists a :: a in i.anchors && forall b | b in i.anchors :: b.sourceId == i.registration.sourceId)
            <==> i.anchors != [] && forall a | a in i.anchors :: a.sourceId == i.registration.sourceId
  {
    if i.anchors != [] {
      assert i.anchors[0] in i.anchors;
    }
  }

  lemma EarlyRequirement(s: AdmissionState, i: Input<int>, at: int)
    requires Rank(s) <= 8
    ensures Requires(s, i, at) <==> Guard(s, i, at)
  {
    AnchorsAgree(i);
    forall e ensures AboutSource(e, i) <==> IsRelevant(e, i)
             ensures OfVersion(e, i) <==> IsRelevant(e, i) && BindsVersion(e, i)
             ensures OfDigest(e, i) <==> IsBound(e, i)
             ensures Applies(e, i) <==> IsScoped(e, i)
    {
      RecordFacts(e, i);
    }
    assert (exists e :: Applies(e, i)) <==> exists e :: IsScoped(e, i);
  }

  lemma LateRequirement(s: AdmissionState, i: Input<int>, at: int)
    requires Rank(s) >= 9
    ensures Requires(s, i, at) <==> Guard(s, i, at)
  {
    forall e ensures AboutSource(e, i) <==> IsRelevant(e, i)
             ensures Applies(e, i) <==> IsScoped(e, i)
             ensures Begun(e, at) <==> !EvidenceNotYetEffective(e, at)
             ensures RunOut(e, at) <==> EvidenceExpired(e, at)
             ensures Replaced(e, at) <==> EvidenceSuperseded(e, at)
             ensures Withdrawn(e, at) <==> EvidenceRevoked(e, at)
             ensures InForceAt(e, i, at) <==> Operative(e, i, at)
    {
      RecordFacts(e, i);
      RecordTimes(e, i, at);
    }
  }

  lemma RequiresIsGuard(s: AdmissionState, i: Input<int>, at: int)
    ensures Requires(s, i, at) <==> Guard(s, i, at)
  {
    if Rank(s) <= 8 {
      EarlyRequirement(s, i, at);
    } else {
      LateRequirement(s, i, at);
    }
  }

  /** The evaluator returns exactly the first state whose requirement on the fields holds. */
  lemma StateFromFields(i: Input<int>, at: int, s: AdmissionState)
    ensures State(i, at) == s <==> IsFirst(s, Requirements(i, at))
  {
    forall t ensures Requirements(i, at)(t) == Guards(i, at)(t) {
      RequiresIsGuard(t, i, at);
    }
    FirstTerminalStateWins(i, at, s);
    if IsFirst(s, Requirements(i, at)) {
      FirstCongruent(s, Requirements(i, at), Guards(i, at));
    }
    if IsFirst(s, Guards(i, at)) {
      FirstCongruent(s, Guards(i, at), Requirements(i, at));
    }
  }

  // ---------------------------------------------------------------- three states in full

  /** The registration and the anchors raise no objection, time aside. */
  ghost predicate InOrder(i: Input<int>) {
    var r := i.registration;
    && i.anchors != []
    && (forall a | a in i.anchors :: a.sourceId == r.sourceId && a.contentHash == r.sourceDigest)
    && r.availability == Available && r.freshness != Stale && r.registered
    && r.jurisdiction == i.jurisdiction && i.applicability in r.applicabilityScope
  }

  ghost predicate RegistrationInForce(i: Input<int>, at: int) {
    var l := i.registration.lifecycle;
    && l.effectiveFrom <= at && !Passed(l.effectiveUntil, at) && !Passed(l.supersededAt, at)
    && !Passed(l.revokedAt, at)
  }

  lemma PastScope(i: Input<int>, at: int)
    ensures (forall t | Rank(t) <= 8 :: !Requires(t, i, at)) <==> InOrder(i) && exists e :: Applies(e, i)
  {
    AnchorsAgree(i);
    var r := i.registration;
    if InOrder(i) && exists e :: Applies(e, i) {
      var e :| Applies(e, i);
      assert OfDigest(e, i) && OfVersion(e, i) && AboutSource(e, i);
      assert forall t | Rank(t) <= 8 :: !Requires(t, i, at);
    }
    if forall t | Rank(t) <= 8 :: !Requires(t, i, at) {
      EarlyStatesFail(i, at);
    }
  }

  lemma EarlyStatesFail(i: Input<int>, at: int)
    requires forall t | Rank(t) <= 8 :: !Requires(t, i, at)
    ensures InOrder(i) && exists e :: Applies(e, i)
  {
    assert !Requires(CandidateInputInvalid, i, at) && !Requires(AuthorityRegistryUnavailable, i, at);
    assert !Requires(AuthorityEvidenceStale, i, at) && !Requires(SourceNotRegistered, i, at);
    assert !Requires(SourceDigestMismatch, i, at) && !Requires(OutOfScope, i, at);
    AnchorsAgree(i);
    var e :| OfDigest(e, i) && InScope(e, i);
    assert Applies(e, i);
  }

  lemma FirstAmong(i: Input<int>, at: int, s: AdmissionState)
    requires Rank(s) >= 9
    ensures State(i, at) == s <==>
              && InOrder(i) && (exists e :: Applies(e, i)) && Requires(s, i, at)
              && forall t | 9 <= Rank(t) < Rank(s) :: !Requirements(i, at)(t)
  {
    StateFromFields(i, at, s);
    PastScope(i, at);
    assert forall t :: Requirements(i, at)(t) == Requires(t, i, at);
  }

  lemma LateStates(g: AdmissionState -> bool)
    ensures (forall t | 9 <= Rank(t) < Rank(Admitted) :: !g(t)) <==>
              && !g(NotYetEffective) && !g(Expired) && !g(Superseded) && !g(Revoked)
              && !g(ConflictingAuthority) && !g(AdmissionNotEstablished)
  {
    assert Rank(NotYetEffective) == 9 && Rank(Expired) == 10 && Rank(Superseded) == 11 && Rank(Revoked) == 12;
    assert Rank(ConflictingAuthority) == 13 && Rank(AdmissionNotEstablished) == 14 && Rank(Admitted) == 15;
  }

  lemma LifecycleHolds(i: Input<int>, at: int)
    requires exists e :: Applies(e, i) && InForceAt(e, i, at)
    ensures RegistrationInForce(i, at) <==>
              && !Requires(NotYetEffective, i, at) && !Requires(Expired, i, at)
              && !Requires(Superseded, i, at) && !Requires(Revoked, i, at)
  {
    var e :| Applies(e, i) && InForceAt(e, i, at);
    assert Begun(e, at) && !RunOut(e, at) && !Replaced(e, at) && !Withdrawn(e, at);
  }

  lemma SomeInForce(i: Input<int>, at: int)
    ensures Requires(AdmissionNotEstablished, i, at) <==> !exists e :: Applies(e, i) && InForceAt(e, i, at)
    ensures Requires(ConflictingAuthority, i, at) <==> !OneBasis(i, at)
  {
  }

  /** Checks 9 to 14 all fail exactly when the registration and some record that applies are in force on one basis. */
  lemma NothingEnded(i: Input<int>, at: int)
    ensures (forall t | 9 <= Rank(t) < Rank(Admitted) :: !Requirements(i, at)(t)) <==>
              && RegistrationInForce(i, at) && OneBasis(i, at)
              && exists e :: Applies(e, i) && InForceAt(e, i, at)
  {
    LateStates(Requirements(i, at));
    SomeInForce(i, at);
    if exists e :: Applies(e, i) && InForceAt(e, i, at) {
      LifecycleHolds(i, at);
    }
  }

  /**
   ADMITTED, field by field: the registration is in order and in force, some record that applies is in force
   together with its warrant, and the records in force rest on one basis.
   */
  lemma AdmittedFromFields(i: Input<int>, at: int)
    ensures State(i, at) == Admitted <==>
              && InOrder(i) && RegistrationInForce(i, at) && OneBasis(i, at)
              && exists e :: Applies(e, i) && InForceAt(e, i, at)
  {
    FirstAmong(i, at, Admitted);
    NothingEnded(i, at);
  }

  lemma BeforeExpired(g: AdmissionState -> bool)
    ensures (forall t | 9 <= Rank(t) < Rank(Expired) :: !g(t)) <==> !g(NotYetEffective)
  {
    assert 9 <= Rank(NotYetEffective) < Rank(Expired);
  }

  lemma BeforeRevoked(g: AdmissionState -> bool)
    ensures (forall t | 9 <= Rank(t) < Rank(Revoked) :: !g(t)) <==>
              !g(NotYetEffective) && !g(Expired) && !g(Superseded)
  {
    assert Rank(NotYetEffective) == 9 && Rank(Expired) == 10 && Rank(Superseded) == 11 && Rank(Revoked) == 12;
  }

  ghost predicate EndsExpired(i: Input<int>, at: int) {
    var l := i.registration.lifecycle;
    && l.effectiveFrom <= at && (exists e :: Applies(e, i) && Begun(e, at))
    && (Passed(l.effectiveUntil, at) || forall e | Applies(e, i) :: RunOut(e, at))
  }

  /** EXPIRED: in order and begun, and the registration or every record that applies has run out. */
  lemma ExpiredFromFields(i: Input<int>, at: int)
    ensures State(i, at) == Expired <==> InOrder(i) && EndsExpired(i, at)
  {
    FirstAmong(i, at, Expired);
    BeforeExpired(Requirements(i, at));
    ExpiredFacts(i, at);
  }

  lemma ExpiredFacts(i: Input<int>, at: int)
    ensures EndsExpired(i, at) <==>
              (exists e :: Applies(e, i)) && !Requires(NotYetEffective, i, at) && Requires(Expired, i, at)
  {
  }

  ghost predicate EndsRevoked(i: Input<int>, at: int) {
    var l := i.registration.lifecycle;
    && l.effectiveFrom <= at && !Passed(l.effectiveUntil, at) && !Passed(l.supersededAt, at)
    && (exists e :: Applies(e, i) && Begun(e, at)) && (exists e :: Applies(e, i) && !RunOut(e, at))
    && (exists e :: Applies(e, i) && !Replaced(e, at))
    && (Passed(l.revokedAt, at) || forall e | Applies(e, i) :: Withdrawn(e, at))
  }

  /** REVOKED: neither ended nor replaced, and the registration or every record that applies is withdrawn. */
  lemma RevokedFromFields(i: Input<int>, at: int)
    ensures State(i, at) == Revoked <==> InOrder(i) && EndsRevoked(i, at)
  {
    FirstAmong(i, at, Revoked);
    BeforeRevoked(Requirements(i, at));
    RevokedFacts(i, at);
  }

  lemma RevokedFacts(i: Input<int>, at: int)
    ensures EndsRevoked(i, at) <==>
              && (exists e :: Applies(e, i)) && !Requires(NotYetEffective, i, at) && !Requires(Expired, i, at)
              && !Requires(Superseded, i, at) && Requires(Revoked, i, at)
  {
  }
}
