/**
 The evaluator read as a table: one guard per state, stated on the input alone, and the first guard
 in the frozen precedence that holds decides.
 */
module Precedence {
  import opened Evaluator

  /** The frozen precedence, 1 to 15. */
  function Rank(s: AdmissionState): (r: nat)
  {
    match s
    case CandidateInputInvalid => 1
    case AuthorityRegistryUnavailable => 2
    case AuthorityEvidenceStale => 3
    case SourceNotRegistered => 4
    case SourceVersionMismatch => 5
    case SourceDigestMismatch => 6
    case MissingAuthorityEvidence => 7
    case OutOfScope => 8
    case NotYetEffective => 9
    case Expired => 10
    case Superseded => 11
    case Revoked => 12
    case ConflictingAuthority => 13
    case AdmissionNotEstablished => 14
    case Admitted => 15
  }

  ghost predicate IsRelevant(e: Evidence<int>, i: Input<int>) {
    e in i.evidence && e.sourceId == i.registration.sourceId
  }

  /** Evidence for the registered source, version and digest. */
  ghost predicate IsBound(e: Evidence<int>, i: Input<int>) {
    IsRelevant(e, i) && BindsVersion(e, i) && BindsDigest(e, i)
  }

  ghost predicate IsScoped(e: Evidence<int>, i: Input<int>) {
    IsBound(e, i) && Covers(e, i)
  }

  /** What each state requires of the input, independently of every other state. */
  ghost predicate Guard(s: AdmissionState, i: Input<int>, at: int) {
    var r := i.registration;
    match s
    case CandidateInputInvalid => i.anchors == [] || exists a :: a in i.anchors && a.sourceId != r.sourceId
    case AuthorityRegistryUnavailable => r.availability == Unavailable
    case AuthorityEvidenceStale => r.availability == Available && r.freshness == Stale
    case SourceNotRegistered => !r.registered
    case SourceVersionMismatch => i.evidence != [] && !exists e :: IsRelevant(e, i) && BindsVersion(e, i)
    case SourceDigestMismatch =>
      || (exists a :: a in i.anchors && a.contentHash != r.sourceDigest)
      || (i.evidence != [] && !exists e :: IsBound(e, i))
    case MissingAuthorityEvidence => !exists e :: IsBound(e, i)
    case OutOfScope => !Contains(r.jurisdiction, r.applicabilityScope, i) || !exists e :: IsScoped(e, i)
    case NotYetEffective =>
      NotYetEffectiveAt(r.lifecycle, at) || forall e | IsScoped(e, i) :: EvidenceNotYetEffective(e, at)
    case Expired => ExpiredAt(r.lifecycle, at) || forall e | IsScoped(e, i) :: EvidenceExpired(e, at)
    case Superseded => SupersededAt(r.lifecycle, at) || forall e | IsScoped(e, i) :: EvidenceSuperseded(e, at)
    case Revoked => RevokedAt(r.lifecycle, at) || forall e | IsScoped(e, i) :: EvidenceRevoked(e, at)
    case ConflictingAuthority =>
      exists d, e :: IsRelevant(d, i) && IsRelevant(e, i) && Operative(d, i, at) && Operative(e, i, at)
                     && d.authorityBasisRef != e.authorityBasisRef
    case AdmissionNotEstablished => !exists e :: IsScoped(e, i) && Operative(e, i, at)
    case Admitted => true
  }

  /** `s` is the least state, in the frozen precedence, that satisfies `g`. */
  ghost predicate IsFirst(s: AdmissionState, g: AdmissionState -> bool) {
    g(s) && forall earlier | Rank(earlier) < Rank(s) :: !g(earlier)
  }

  ghost function Guards(i: Input<int>, at: int): AdmissionState -> bool {
    s => Guard(s, i, at)
  }

  lemma RankInjective(s: AdmissionState, t: AdmissionState)
    ensures Rank(s) == Rank(t) <==> s == t
  {
  }

  lemma FirstUnique(g: AdmissionState -> bool, s: AdmissionState, t: AdmissionState)
    requires IsFirst(s, g) && IsFirst(t, g)
    ensures s == t
  {
    RankInjective(s, t);
  }

  /** The nested filters hold the evidence their names say. */
  lemma Members(i: Input<int>, e: Evidence<int>)
    ensures e in Relevant(i) <==> IsRelevant(e, i)
    ensures e in VersionBound(i) <==> IsRelevant(e, i) && BindsVersion(e, i)
    ensures e in Bound(i) <==> IsBound(e, i)
    ensures e in Scoped(i) <==> IsScoped(e, i)
  {
  }

  lemma Emptiness(i: Input<int>)
    ensures VersionBound(i) != {} <==> exists e :: IsRelevant(e, i) && BindsVersion(e, i)
    ensures Bound(i) != {} <==> exists e :: IsBound(e, i)
    ensures Scoped(i) != {} <==> exists e :: IsScoped(e, i)
  {
    forall e ensures e in VersionBound(i) <==> IsRelevant(e, i) && BindsVersion(e, i)
             ensures e in Bound(i) <==> IsBound(e, i)
             ensures e in Scoped(i) <==> IsScoped(e, i)
    {
      Members(i, e);
    }
  }

  /** Two distinct bases are two operative records that disagree on their basis. */
  lemma TwoBases(i: Input<int>, at: int)
    ensures |OperativeBases(i, at)| >= 2 <==> Guard(ConflictingAuthority, i, at)
  {
    var bases := OperativeBases(i, at);
    if |bases| >= 2 {
      var x :| x in bases;
      assert |bases - {x}| >= 1;
      var y :| y in bases - {x};
      var d :| d in Relevant(i) && Operative(d, i, at) && d.authorityBasisRef == x;
      var e :| e in Relevant(i) && Operative(e, i, at) && e.authorityBasisRef == y;
      Members(i, d);
      Members(i, e);
    }
    if Guard(ConflictingAuthority, i, at) {
      var d, e :| IsRelevant(d, i) && IsRelevant(e, i) && Operative(d, i, at) && Operative(e, i, at)
                  && d.authorityBasisRef != e.authorityBasisRef;
      Members(i, d);
      Members(i, e);
      var pair := {d.authorityBasisRef, e.authorityBasisRef};
      assert pair <= bases;
      SubsetSize(pair, bases);
    }
  }

  lemma {:induction false} SubsetSize<A>(a: set<A>, b: set<A>)
    requires a <= b
    ensures |a| <= |b|
  {
    if a != {} {
      var x :| x in a;
      SubsetSize(a - {x}, b - {x});
    }
  }

  lemma ScopedMembers(i: Input<int>)
    ensures forall e :: e in Scoped(i) <==> IsScoped(e, i)
  {
    forall e ensures e in Scoped(i) <==> IsScoped(e, i) {
      Members(i, e);
    }
  }

  lemma NotYetEffectiveCheckIsGuard(i: Input<int>, at: int)
    ensures NotYetEffectiveCheck(i, at) <==> Guard(NotYetEffective, i, at)
  {
    ScopedMembers(i);
  }

  lemma ExpiredCheckIsGuard(i: Input<int>, at: int)
    ensures ExpiredCheck(i, at) <==> Guard(Expired, i, at)
  {
    ScopedMembers(i);
  }

  lemma SupersededCheckIsGuard(i: Input<int>, at: int)
    ensures SupersededCheck(i, at) <==> Guard(Superseded, i, at)
  {
    ScopedMembers(i);
  }

  lemma RevokedCheckIsGuard(i: Input<int>, at: int)
    ensures RevokedCheck(i, at) <==> Guard(Revoked, i, at)
  {
    ScopedMembers(i);
  }

  lemma NotEstablishedCheckIsGuard(i: Input<int>, at: int)
    ensures NotEstablishedCheck(i, at) <==> Guard(AdmissionNotEstablished, i, at)
  {
    ScopedMembers(i);
  }

  /** The temporal chain, for any guards that agree with its checks. */
  lemma FirstOfIsFirst(notYet: bool, expired: bool, superseded: bool, revoked: bool, conflict: bool,
                       unestablished: bool, g: AdmissionState -> bool)
    requires forall s :: g(s) <==> match s
                                   case NotYetEffective => notYet
                                   case Expired => expired
                                   case Superseded => superseded
                                   case Revoked => revoked
                                   case ConflictingAuthority => conflict
                                   case AdmissionNotEstablished => unestablished
                                   case _ => s == Admitted
    ensures IsFirst(FirstOf(notYet, expired, superseded, revoked, conflict, unestablished), g)
  {
  }

  /** What the evaluator computes for each state it can still return once checks 1-8 have passed. */
  ghost predicate TemporalCheck(s: AdmissionState, i: Input<int>, at: int) {
    match s
    case NotYetEffective => NotYetEffectiveCheck(i, at)
    case Expired => ExpiredCheck(i, at)
    case Superseded => SupersededCheck(i, at)
    case Revoked => RevokedCheck(i, at)
    case ConflictingAuthority => ConflictCheck(i, at)
    case AdmissionNotEstablished => NotEstablishedCheck(i, at)
    case _ => s == Admitted
  }

  lemma TemporalCheckIsGuard(s: AdmissionState, i: Input<int>, at: int)
    requires Rank(s) >= 9
    ensures TemporalCheck(s, i, at) <==> Guard(s, i, at)
  {
    match s
    case NotYetEffective => NotYetEffectiveCheckIsGuard(i, at);
    case Expired => ExpiredCheckIsGuard(i, at);
    case Superseded => SupersededCheckIsGuard(i, at);
    case Revoked => RevokedCheckIsGuard(i, at);
    case ConflictingAuthority => TwoBases(i, at);
    case AdmissionNotEstablished => NotEstablishedCheckIsGuard(i, at);
    case Admitted =>
  }

  ghost function Checks(i: Input<int>, at: int): AdmissionState -> bool {
    s => TemporalCheck(s, i, at)
  }

  lemma TemporalChecksFirst(i: Input<int>, at: int)
    requires Scoped(i) != {}
    ensures IsFirst(TemporalChecks(i, at), Checks(i, at))
  {
    FirstOfIsFirst(NotYetEffectiveCheck(i, at), ExpiredCheck(i, at), SupersededCheck(i, at), RevokedCheck(i, at),
                   ConflictCheck(i, at), NotEstablishedCheck(i, at), Checks(i, at));
  }

  lemma FirstCongruent(s: AdmissionState, g: AdmissionState -> bool, h: AdmissionState -> bool)
    requires IsFirst(s, g) && forall t :: g(t) == h(t)
    ensures IsFirst(s, h)
  {
  }

  lemma TemporalFirst(i: Input<int>, at: int)
    requires Scoped(i) != {} && forall s | Rank(s) <= 8 :: !Guards(i, at)(s)
    ensures IsFirst(TemporalChecks(i, at), Guards(i, at))
  {
    var checks := Checks(i, at);
    TemporalChecksFirst(i, at);
    forall s ensures checks(s) == Guards(i, at)(s) {
      if Rank(s) >= 9 {
        TemporalCheckIsGuard(s, i, at);
      }
    }
    FirstCongruent(TemporalChecks(i, at), checks, Guards(i, at));
  }

  /** Checks 1-8 return the first of the first eight states whose guard holds, if one does. */
  lemma BindingFirst(i: Input<int>, at: int)
    ensures RegistryChecks(i).Some? ==> IsFirst(RegistryChecks(i).value, Guards(i, at))
    ensures RegistryChecks(i).None? && BindingChecks(i).Some? ==> IsFirst(BindingChecks(i).value, Guards(i, at))
    ensures RegistryChecks(i).None? && BindingChecks(i).None? ==> forall s | Rank(s) <= 8 :: !Guards(i, at)(s)
  {
    Emptiness(i);
  }

  /** The lifecycle scans are reached only with scoped evidence, so their empty-set error never arises. */
  lemma EmptySetErrorUnreachable(i: Input<int>)
    requires RegistryChecks(i).None? && BindingChecks(i).None?
    ensures exists e :: IsScoped(e, i)
  {
    Emptiness(i);
    assert Scoped(i) != {};
  }

  lemma StateIsFirst(i: Input<int>, at: int)
    ensures IsFirst(State(i, at), Guards(i, at))
  {
    BindingFirst(i, at);
    if RegistryChecks(i).None? && BindingChecks(i).None? {
      TemporalFirst(i, at);
    }
  }

  /** First terminal state wins: the evaluator returns `s` exactly when `s` is the least state whose guard holds. */
  lemma FirstTerminalStateWins(i: Input<int>, at: int, s: AdmissionState)
    ensures State(i, at) == s <==> IsFirst(s, Guards(i, at))
  {
    StateIsFirst(i, at);
    if IsFirst(s, Guards(i, at)) {
      FirstUnique(Guards(i, at), s, State(i, at));
    }
  }

  lemma AdmittedIsLast(g: AdmissionState -> bool, s: AdmissionState)
    requires IsFirst(s, g)
    ensures s == Admitted <==> forall t | t != Admitted :: !g(t)
  {
    if s == Admitted {
      forall t | t != Admitted ensures !g(t) {
        assert Rank(t) < Rank(s);
      }
    }
  }

  /**
   Admission holds exactly when every earlier guard fails, and then every operative record of the
   source rests on one single authority basis, which some scoped record carries.
   */
  lemma AdmittedExactly(i: Input<int>, at: int)
    ensures State(i, at) == Admitted <==> forall s | s != Admitted :: !Guards(i, at)(s)
    ensures State(i, at) == Admitted ==>
              exists e :: IsScoped(e, i) && Operative(e, i, at)
                && forall d | IsRelevant(d, i) && Operative(d, i, at) :: d.authorityBasisRef == e.authorityBasisRef
  {
    StateIsFirst(i, at);
    AdmittedIsLast(Guards(i, at), State(i, at));
    if State(i, at) == Admitted {
      assert !Guards(i, at)(AdmissionNotEstablished) && !Guards(i, at)(ConflictingAuthority);
      SingleBasis(i, at);
    }
  }

  lemma SingleBasis(i: Input<int>, at: int)
    requires !Guard(AdmissionNotEstablished, i, at) && !Guard(ConflictingAuthority, i, at)
    ensures exists e :: IsScoped(e, i) && Operative(e, i, at)
              && forall d | IsRelevant(d, i) && Operative(d, i, at) :: d.authorityBasisRef == e.authorityBasisRef
  {
    var e :| IsScoped(e, i) && Operative(e, i, at);
  }

  // ---------------------------------------------------------------- evidence as a set

  ghost predicate SameFacts(i: Input<int>, j: Input<int>) {
    i.registration == j.registration && i.jurisdiction == j.jurisdiction && i.applicability == j.applicability
  }

  ghost predicate SameMembers<A(!new)>(a: seq<A>, b: seq<A>) {
    forall x :: x in a <==> x in b
  }

  /** Reordering or repeating evidence or anchors never changes the state. */
  lemma EvidenceActsAsASet(i: Input<int>, j: Input<int>, at: int)
    requires SameFacts(i, j) && SameMembers(i.evidence, j.evidence) && SameMembers(i.anchors, j.anchors)
    ensures State(i, at) == State(j, at)
  {
    forall s ensures Guards(i, at)(s) == Guards(j, at)(s) {
      SameGuards(s, i, j, at);
    }
    StateIsFirst(i, at);
    StateIsFirst(j, at);
    assert IsFirst(State(j, at), Guards(i, at));
    FirstUnique(Guards(i, at), State(i, at), State(j, at));
  }

  lemma SameEmptiness<A(!new)>(a: seq<A>, b: seq<A>)
    requires SameMembers(a, b)
    ensures a == [] <==> b == []
  {
    assert a != [] ==> a[0] in b;
    assert b != [] ==> b[0] in a;
  }

  lemma SameGuards(s: AdmissionState, i: Input<int>, j: Input<int>, at: int)
    requires SameFacts(i, j) && SameMembers(i.evidence, j.evidence) && SameMembers(i.anchors, j.anchors)
    ensures Guard(s, i, at) <==> Guard(s, j, at)
  {
    SameEmptiness(i.evidence, j.evidence);
    SameEmptiness(i.anchors, j.anchors);
    forall e ensures IsRelevant(e, i) <==> IsRelevant(e, j)
             ensures IsBound(e, i) <==> IsBound(e, j)
             ensures IsScoped(e, i) <==> IsScoped(e, j)
             ensures Operative(e, i, at) <==> Operative(e, j, at)
             ensures BindsVersion(e, i) <==> BindsVersion(e, j)
    {
    }
  }

  // ---------------------------------------------------------------- adding evidence

  /** `j` is `i` with evidence added. */
  ghost predicate Extends(i: Input<int>, j: Input<int>) {
    SameFacts(i, j) && SameMembers(i.anchors, j.anchors) && forall e | e in i.evidence :: e in j.evidence
  }

  /** Up to state 12 a guard that fails keeps failing when evidence is added to some evidence; 13 keeps holding. */
  lemma GuardsUnderAddition(s: AdmissionState, i: Input<int>, j: Input<int>, at: int)
    requires Extends(i, j) && i.evidence != []
    ensures Rank(s) <= 12 || s == AdmissionNotEstablished ==> Guard(s, j, at) ==> Guard(s, i, at)
    ensures s == ConflictingAuthority && Guard(s, i, at) ==> Guard(s, j, at)
  {
    SameEmptiness(i.anchors, j.anchors);
    assert i.evidence[0] in j.evidence;
    forall e ensures IsRelevant(e, i) ==> IsRelevant(e, j)
             ensures IsBound(e, i) ==> IsBound(e, j)
             ensures IsScoped(e, i) ==> IsScoped(e, j)
             ensures Operative(e, i, at) <==> Operative(e, j, at)
             ensures BindsVersion(e, i) <==> BindsVersion(e, j)
    {
    }
  }

  lemma FirstUnderAddition(g: AdmissionState -> bool, h: AdmissionState -> bool, s: AdmissionState, t: AdmissionState)
    requires IsFirst(s, g) && IsFirst(t, h) && g(Admitted)
    requires forall u | Rank(u) <= 12 || u == AdmissionNotEstablished :: h(u) ==> g(u)
    requires g(ConflictingAuthority) ==> h(ConflictingAuthority)
    ensures Rank(t) >= Rank(s) || t == ConflictingAuthority
    ensures s == ConflictingAuthority ==> t == ConflictingAuthority
  {
    RankInjective(s, t);
  }

  /**
   Added evidence never moves an outcome back in the precedence, except that a live outcome (14, 15)
   can become CONFLICTING_AUTHORITY; and a conflict is never resolved by adding evidence.
   */
  lemma EvidenceNeverRetreats(i: Input<int>, j: Input<int>, at: int)
    requires Extends(i, j) && i.evidence != []
    ensures Rank(State(j, at)) >= Rank(State(i, at)) || State(j, at) == ConflictingAuthority
    ensures State(i, at) == ConflictingAuthority ==> State(j, at) == ConflictingAuthority
  {
    StateIsFirst(i, at);
    StateIsFirst(j, at);
    forall u ensures Rank(u) <= 12 || u == AdmissionNotEstablished ==> Guards(j, at)(u) ==> Guards(i, at)(u)
             ensures u == ConflictingAuthority && Guards(i, at)(u) ==> Guards(j, at)(u)
    {
      GuardsUnderAddition(u, i, j, at);
    }
    FirstUnderAddition(Guards(i, at), Guards(j, at), State(i, at), State(j, at));
  }

  lemma LaterStatesHaveEvidence(i: Input<int>, at: int)
    requires Rank(State(i, at)) >= 8
    ensures i.evidence != []
  {
    StateIsFirst(i, at);
    assert !Guards(i, at)(MissingAuthorityEvidence);
    var e :| IsBound(e, i);
  }

  lemma LastRank(s: AdmissionState)
    ensures Rank(s) >= Rank(Admitted) <==> s == Admitted
  {
  }

  /** No amplification: evidence added to an admitted input leaves it admitted or in conflict. */
  lemma AdditionToAdmitted(i: Input<int>, j: Input<int>, at: int)
    requires Extends(i, j) && State(i, at) == Admitted
    ensures State(j, at) == Admitted || State(j, at) == ConflictingAuthority
  {
    LaterStatesHaveEvidence(i, at);
    EvidenceNeverRetreats(i, j, at);
    LastRank(State(j, at));
  }

  /** A conflict survives any addition. */
  lemma ConflictIsPermanent(i: Input<int>, j: Input<int>, at: int)
    requires Extends(i, j) && State(i, at) == ConflictingAuthority
    ensures State(j, at) == ConflictingAuthority
  {
    LaterStatesHaveEvidence(i, at);
    EvidenceNeverRetreats(i, j, at);
  }
}
