/**
 The frozen state mapping, with its entries 5 to 12 read as they are worded: any record about the registered source
 decides, where the evaluator asks what none or all of the applicable records say. The two readings are
 compared for every input.
 */
module StateMapping {
  import opened Outcomes
  import opened Evaluator
  import opened Precedence
  import opened Timeline

  /** Each state's required facts in the mapping's words; an applicable record is one about the registered source. */
  ghost predicate MappingGuard(s: AdmissionState, i: Input<int>, at: int) {
    var r := i.registration;
    match s
    case SourceVersionMismatch => exists e :: IsRelevant(e, i) && !BindsVersion(e, i)
    case SourceDigestMismatch =>
      || (exists a :: a in i.anchors && a.contentHash != r.sourceDigest)
      || exists e :: IsRelevant(e, i) && !BindsDigest(e, i)
    case MissingAuthorityEvidence => !exists e :: IsRelevant(e, i)
    case OutOfScope =>
      !Contains(r.jurisdiction, r.applicabilityScope, i) || exists e :: IsRelevant(e, i) && !Covers(e, i)
    case NotYetEffective =>
      NotYetEffectiveAt(r.lifecycle, at) || exists e :: IsRelevant(e, i) && EvidenceNotYetEffective(e, at)
    case Expired => ExpiredAt(r.lifecycle, at) || exists e :: IsRelevant(e, i) && EvidenceExpired(e, at)
    case Superseded => SupersededAt(r.lifecycle, at) || exists e :: IsRelevant(e, i) && EvidenceSuperseded(e, at)
    case Revoked => RevokedAt(r.lifecycle, at) || exists e :: IsRelevant(e, i) && EvidenceRevoked(e, at)
    case _ => Guard(s, i, at)
  }

  ghost function MappingGuards(i: Input<int>, at: int): AdmissionState -> bool {
    s => MappingGuard(s, i, at)
  }

  /** The earliest state that one record, taken alone, asks for; Admitted when it asks for none. */
  function Trouble(e: Evidence<int>, i: Input<int>, at: int): AdmissionState {
    if !BindsVersion(e, i) then SourceVersionMismatch
    else if !BindsDigest(e, i) then SourceDigestMismatch
    else if !Covers(e, i) then OutOfScope
    else if EvidenceNotYetEffective(e, at) then NotYetEffective
    else if EvidenceExpired(e, at) then Expired
    else if EvidenceSuperseded(e, at) then Superseded
    else if EvidenceRevoked(e, at) then Revoked
    else Admitted
  }

  /** No record about the source asks for a state before `s`. */
  ghost predicate Untroubled(i: Input<int>, at: int, s: AdmissionState) {
    forall e | IsRelevant(e, i) :: Rank(Trouble(e, i, at)) >= Rank(s)
  }

  lemma TroubleIsGuard(e: Evidence<int>, i: Input<int>, at: int)
    requires IsRelevant(e, i) && Trouble(e, i, at) != Admitted
    ensures MappingGuard(Trouble(e, i, at), i, at)
  {
  }

  lemma BindingTrouble(i: Input<int>, at: int, s: AdmissionState, t: AdmissionState)
    requires Untroubled(i, at, s) && 5 <= Rank(t) <= 8 && Rank(t) < Rank(s) && !Guard(t, i, at)
    ensures !MappingGuard(t, i, at)
  {
    forall e | IsRelevant(e, i)
      ensures t == SourceVersionMismatch ==> BindsVersion(e, i)
      ensures t == SourceDigestMismatch ==> BindsDigest(e, i)
      ensures t == OutOfScope ==> Covers(e, i)
    {
      assert Rank(Trouble(e, i, at)) > Rank(t);
    }
  }

  lemma LifecycleTrouble(i: Input<int>, at: int, s: AdmissionState, t: AdmissionState)
    requires Untroubled(i, at, s) && 9 <= Rank(t) <= 12 && Rank(t) < Rank(s) && !Guard(t, i, at)
    ensures !MappingGuard(t, i, at)
  {
    forall e | IsRelevant(e, i)
      ensures t == NotYetEffective ==> !EvidenceNotYetEffective(e, at)
      ensures t == Expired ==> !EvidenceExpired(e, at)
      ensures t == Superseded ==> !EvidenceSuperseded(e, at)
      ensures t == Revoked ==> !EvidenceRevoked(e, at)
    {
      assert Rank(Trouble(e, i, at)) > Rank(t);
    }
  }

  /** Up to a state no record troubles, the mapping's entries fail wherever the evaluator's checks do. */
  lemma EarlierEntriesFail(i: Input<int>, at: int, s: AdmissionState)
    requires Untroubled(i, at, s) && forall t | Rank(t) < Rank(s) :: !Guard(t, i, at)
    ensures forall t | Rank(t) < Rank(s) :: !MappingGuard(t, i, at)
  {
    forall t | Rank(t) < Rank(s) ensures !MappingGuard(t, i, at) {
      if 5 <= Rank(t) <= 8 {
        BindingTrouble(i, at, s, t);
      } else if 9 <= Rank(t) <= 12 {
        LifecycleTrouble(i, at, s, t);
      }
    }
  }

  /** The evaluator's state is also required by the mapping, unless all evidence is about other sources. */
  lemma FirstIsRequired(i: Input<int>, at: int, s: AdmissionState)
    requires IsFirst(s, Guards(i, at)) && (s == SourceVersionMismatch ==> exists e :: IsRelevant(e, i))
    ensures MappingGuard(s, i, at)
  {
    assert Guard(s, i, at) && forall t | Rank(t) < Rank(s) :: !Guards(i, at)(t);
    if s == SourceVersionMismatch {
      var e :| IsRelevant(e, i);
      assert !BindsVersion(e, i);
    } else if s == SourceDigestMismatch {
      assert !Guards(i, at)(SourceVersionMismatch);
      DigestIsRequired(i, at);
    } else if s == MissingAuthorityEvidence {
      assert !Guards(i, at)(SourceDigestMismatch);
      assert i.evidence == [];
    } else if s == OutOfScope {
      assert !Guards(i, at)(MissingAuthorityEvidence);
      ScopeIsRequired(i, at);
    } else if 9 <= Rank(s) <= 12 {
      assert !Guards(i, at)(OutOfScope);
      LifecycleIsRequired(i, at, s);
    }
  }

  lemma ScopeIsRequired(i: Input<int>, at: int)
    requires Guard(OutOfScope, i, at) && !Guard(MissingAuthorityEvidence, i, at)
    ensures MappingGuard(OutOfScope, i, at)
  {
    var e :| IsBound(e, i);
    assert IsScoped(e, i) || !Covers(e, i);
  }

  lemma LifecycleIsRequired(i: Input<int>, at: int, s: AdmissionState)
    requires 9 <= Rank(s) <= 12 && Guard(s, i, at) && !Guard(OutOfScope, i, at)
    ensures MappingGuard(s, i, at)
  {
    var e :| IsScoped(e, i);
    assert IsRelevant(e, i);
  }

  lemma DigestIsRequired(i: Input<int>, at: int)
    requires Guard(SourceDigestMismatch, i, at) && !Guard(SourceVersionMismatch, i, at)
    ensures MappingGuard(SourceDigestMismatch, i, at)
  {
    if i.evidence != [] && !exists e :: IsBound(e, i) {
      var e :| IsRelevant(e, i) && BindsVersion(e, i);
      assert !IsBound(e, i);
    }
  }

  /** Some check of the evaluator holds no later than what the record, taken alone, asks for. */
  ghost predicate Anticipated(e: Evidence<int>, i: Input<int>, at: int) {
    exists s :: Rank(s) <= Rank(Trouble(e, i, at)) && Guard(s, i, at)
  }

  /** There is evidence, none of it about the registered source, and no earlier check holds. */
  ghost predicate OnlyForeign(i: Input<int>, at: int) {
    i.evidence != [] && (!exists e :: IsRelevant(e, i)) && forall t | Rank(t) <= 4 :: !Guard(t, i, at)
  }

  lemma AnticipatedExactly(i: Input<int>, at: int)
    ensures Untroubled(i, at, State(i, at)) <==> forall e | IsRelevant(e, i) :: Anticipated(e, i, at)
  {
    StateIsFirst(i, at);
    assert Guards(i, at)(State(i, at));
    forall e | IsRelevant(e, i) ensures Rank(Trouble(e, i, at)) >= Rank(State(i, at)) <==> Anticipated(e, i, at) {
      if s :| Rank(s) <= Rank(Trouble(e, i, at)) && Guard(s, i, at) {
        assert Guards(i, at)(s);
      }
    }
  }

  lemma OnlyForeignExactly(i: Input<int>, at: int)
    ensures OnlyForeign(i, at) <==> State(i, at) == SourceVersionMismatch && !exists e :: IsRelevant(e, i)
  {
    StateIsFirst(i, at);
    assert Guards(i, at)(State(i, at));
    assert forall t | Rank(t) < Rank(State(i, at)) :: !Guards(i, at)(t);
    if OnlyForeign(i, at) {
      assert Guards(i, at)(SourceVersionMismatch);
    }
  }

  /** In the evaluator's own terms: nothing relevant asks for an earlier state than the one it returns. */
  lemma AgreesWhereUntroubled(i: Input<int>, at: int)
    ensures IsFirst(State(i, at), MappingGuards(i, at)) <==>
              && Untroubled(i, at, State(i, at))
              && (State(i, at) == SourceVersionMismatch ==> exists e :: IsRelevant(e, i))
  {
    var s := State(i, at);
    StateIsFirst(i, at);
    assert forall t | Rank(t) < Rank(s) :: !Guards(i, at)(t);
    if Untroubled(i, at, s) && (s == SourceVersionMismatch ==> exists e :: IsRelevant(e, i)) {
      EarlierEntriesFail(i, at, s);
      FirstIsRequired(i, at, s);
    }
    if IsFirst(s, MappingGuards(i, at)) {
      assert MappingGuards(i, at)(s);
      forall e | IsRelevant(e, i) ensures Rank(Trouble(e, i, at)) >= Rank(s) {
        if Trouble(e, i, at) != Admitted {
          TroubleIsGuard(e, i, at);
          assert MappingGuards(i, at)(Trouble(e, i, at));
        }
      }
    }
  }

  /**
   The two readings agree exactly when every record about the source is anticipated by a check of the
   evaluator, and the evidence is not about other sources only.
   */
  lemma MappingAgreesExactly(i: Input<int>, at: int)
    ensures IsFirst(State(i, at), MappingGuards(i, at)) <==>
              (forall e | IsRelevant(e, i) :: Anticipated(e, i, at)) && !OnlyForeign(i, at)
  {
    AgreesWhereUntroubled(i, at);
    AnticipatedExactly(i, at);
    OnlyForeignExactly(i, at);
  }

  /** Where they differ, the mapping asks for the earliest state that some record asks for. */
  lemma MappingTakesTheEarliest(i: Input<int>, at: int, e: Evidence<int>)
    requires IsRelevant(e, i) && Rank(Trouble(e, i, at)) < Rank(State(i, at)) && Untroubled(i, at, Trouble(e, i, at))
    ensures IsFirst(Trouble(e, i, at), MappingGuards(i, at))
  {
    StateIsFirst(i, at);
    assert forall t | Rank(t) < Rank(State(i, at)) :: !Guards(i, at)(t);
    EarlierEntriesFail(i, at, Trouble(e, i, at));
    TroubleIsGuard(e, i, at);
  }

  /** With evidence about other sources only, the mapping does not ask for a version mismatch. */
  lemma ForeignEvidenceOnly(i: Input<int>, at: int)
    requires OnlyForeign(i, at)
    ensures State(i, at) == SourceVersionMismatch
    ensures IsFirst(if AnchorsMatch(i) then MissingAuthorityEvidence else SourceDigestMismatch, MappingGuards(i, at))
  {
    OnlyForeignExactly(i, at);
    assert forall t | Rank(t) < 5 :: !Guard(t, i, at);
    assert forall t | Rank(t) < 5 :: MappingGuard(t, i, at) == Guard(t, i, at);
    assert forall t | Rank(t) == 5 :: t == SourceVersionMismatch;
    assert forall t | Rank(t) == 6 :: t == SourceDigestMismatch;
  }

  /** A record that binds the source's version and digest, covers the scope, and is in force. */
  predicate Clean(e: Evidence<int>, i: Input<int>, at: int) {
    && BindsVersion(e, i) && BindsDigest(e, i) && Covers(e, i) && !EvidenceNotYetEffective(e, at)
    && !EvidenceExpired(e, at) && !EvidenceSuperseded(e, at) && !EvidenceRevoked(e, at)
  }

  lemma CleanIsUntroubled(e: Evidence<int>, i: Input<int>, at: int)
    ensures Clean(e, i, at) <==> Trouble(e, i, at) == Admitted
    ensures Rank(Trouble(e, i, at)) >= Rank(Admitted) <==> Trouble(e, i, at) == Admitted
  {
  }

  lemma AllClean(i: Input<int>, at: int)
    ensures Untroubled(i, at, Admitted) <==> forall e | IsRelevant(e, i) :: Clean(e, i, at)
  {
    forall e | IsRelevant(e, i) ensures Clean(e, i, at) <==> Rank(Trouble(e, i, at)) >= Rank(Admitted) {
      CleanIsUntroubled(e, i, at);
    }
  }

  lemma CleanIsUntroubledFor(i: Input<int>, at: int, s: AdmissionState)
    requires forall e | e in i.evidence && e.sourceId == i.registration.sourceId :: Clean(e, i, at)
    ensures Untroubled(i, at, s)
  {
    forall e | IsRelevant(e, i) ensures Rank(Trouble(e, i, at)) >= Rank(s) {
      CleanIsUntroubled(e, i, at);
      assert Rank(s) <= Rank(Admitted);
    }
  }

  lemma SomeIsRelevant(i: Input<int>)
    requires exists e :: e in i.evidence && e.sourceId == i.registration.sourceId
    ensures exists e :: IsRelevant(e, i)
  {
    var e :| e in i.evidence && e.sourceId == i.registration.sourceId;
    assert IsRelevant(e, i);
  }

  /** Where every record about the source is clean, and there is one if there is any, the readings agree. */
  lemma CleanEvidenceAgrees(i: Input<int>, at: int)
    requires forall e | e in i.evidence && e.sourceId == i.registration.sourceId :: Clean(e, i, at)
    requires i.evidence == [] || exists e :: e in i.evidence && e.sourceId == i.registration.sourceId
    ensures IsFirst(State(i, at), MappingGuards(i, at))
  {
    CleanIsUntroubledFor(i, at, State(i, at));
    MismatchHasEvidence(i, at);
    if i.evidence != [] {
      SomeIsRelevant(i);
    }
    AgreesWhereUntroubled(i, at);
  }

  lemma MismatchHasEvidence(i: Input<int>, at: int)
    ensures State(i, at) == SourceVersionMismatch ==> i.evidence != []
  {
    StateIsFirst(i, at);
    assert Guards(i, at)(State(i, at));
  }

  lemma EntryCoversCheck(i: Input<int>, at: int, e: Evidence<int>, t: AdmissionState)
    requires IsScoped(e, i) && t != Admitted && !MappingGuard(t, i, at)
    ensures !Guard(t, i, at)
  {
    assert IsBound(e, i) && IsRelevant(e, i);
  }

  lemma SomeRecordIsScoped(i: Input<int>, at: int) returns (e: Evidence<int>)
    requires !MappingGuard(MissingAuthorityEvidence, i, at) && !MappingGuard(SourceVersionMismatch, i, at)
    requires !MappingGuard(SourceDigestMismatch, i, at) && !MappingGuard(OutOfScope, i, at)
    ensures IsScoped(e, i)
  {
    e :| IsRelevant(e, i);
    assert BindsVersion(e, i) && BindsDigest(e, i) && Covers(e, i);
  }

  /** The mapping admits exactly the admitted inputs all of whose records about the source are clean. */
  lemma MappingAdmitsExactly(i: Input<int>, at: int)
    ensures IsFirst(Admitted, MappingGuards(i, at)) <==>
              State(i, at) == Admitted && forall e | IsRelevant(e, i) :: Clean(e, i, at)
  {
    AllClean(i, at);
    AgreesWhereUntroubled(i, at);
    if IsFirst(Admitted, MappingGuards(i, at)) {
      AdmittedByMapping(i, at);
    }
  }

  lemma AdmittedByMapping(i: Input<int>, at: int)
    requires IsFirst(Admitted, MappingGuards(i, at))
    ensures State(i, at) == Admitted
  {
    forall t | t != Admitted ensures !MappingGuard(t, i, at) {
      assert Rank(t) < Rank(Admitted) && !MappingGuards(i, at)(t);
    }
    var e := SomeRecordIsScoped(i, at);
    forall t | t != Admitted ensures !Guards(i, at)(t) {
      EntryCoversCheck(i, at, e, t);
    }
    AdmittedExactly(i, at);
  }

  lemma SampleTrouble(e: Evidence<int>, i: Input<int>, at: int)
    requires at >= 0 && e == SampleEvidence(e.authorityBasisRef, e.lifecycle) && i == SampleInput(i.evidence)
    requires !NotYetEffectiveAt(e.lifecycle, at) && !SupersededAt(e.lifecycle, at) && !RevokedAt(e.lifecycle, at)
    ensures Trouble(e, i, at) == if ExpiredAt(e.lifecycle, at) then Expired else Admitted
  {
    SampleLifecycle(e, i, at);
    assert "a" in ["a"];
  }

  /** An input on which they differ: admitted at 25 on one record, while another of the source has expired. */
  lemma ExpiredRecordSplitsThem()
    ensures var i := SampleInput([SampleEvidence("p", Between(0, Some(10))), SampleEvidence("p", Between(20, None))]);
            State(i, 25) == Admitted && IsFirst(Expired, MappingGuards(i, 25))
  {
    var p, q := SampleEvidence("p", Between(0, Some(10))), SampleEvidence("p", Between(20, None));
    AuthorityGap();
    SampleSplit(p, q, SampleInput([p, q]), 25);
  }

  predicate InForceButForExpiry(e: Evidence<int>, at: int) {
    && e == SampleEvidence(e.authorityBasisRef, e.lifecycle)
    && !NotYetEffectiveAt(e.lifecycle, at) && !SupersededAt(e.lifecycle, at) && !RevokedAt(e.lifecycle, at)
  }

  lemma OneExpired(p: Evidence<int>, q: Evidence<int>, i: Input<int>, at: int)
    requires i == SampleInput([p, q]) && at >= 0 && InForceButForExpiry(p, at) && InForceButForExpiry(q, at)
    requires ExpiredAt(p.lifecycle, at)
    ensures Trouble(p, i, at) == Expired && IsRelevant(p, i) && Untroubled(i, at, Expired)
  {
    SampleTrouble(p, i, at);
    SampleTrouble(q, i, at);
    OfTwo(p, q, i, at, Expired);
  }

  lemma SampleSplit(p: Evidence<int>, q: Evidence<int>, i: Input<int>, at: int)
    requires i == SampleInput([p, q]) && at >= 0 && InForceButForExpiry(p, at) && InForceButForExpiry(q, at)
    requires ExpiredAt(p.lifecycle, at) && State(i, at) == Admitted
    ensures IsFirst(Expired, MappingGuards(i, at))
  {
    OneExpired(p, q, i, at);
    MappingTakesTheEarliest(i, at, p);
  }

  lemma OfTwo(p: Evidence<int>, q: Evidence<int>, i: Input<int>, at: int, s: AdmissionState)
    requires i.evidence == [p, q] && p.sourceId == i.registration.sourceId
    requires Rank(Trouble(p, i, at)) >= Rank(s) && Rank(Trouble(q, i, at)) >= Rank(s)
    ensures IsRelevant(p, i) && Untroubled(i, at, s)
  {
    assert p in i.evidence;
    forall e | IsRelevant(e, i) ensures Rank(Trouble(e, i, at)) >= Rank(s) {
      assert e == p || e == q;
    }
  }
}
