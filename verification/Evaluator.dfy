/**
 The frozen ordered evaluation of Admission Boundary 001: fifteen terminal states, the first whose
 check fires wins, half-open lifecycle intervals. Records are generic in how a timestamp is held:
 `string` before it is parsed, `int` (an instant) after.
 */
module Evaluator {
  import opened Outcomes

  datatype AdmissionState =
    | CandidateInputInvalid
    | AuthorityRegistryUnavailable
    | AuthorityEvidenceStale
    | SourceNotRegistered
    | SourceVersionMismatch
    | SourceDigestMismatch
    | MissingAuthorityEvidence
    | OutOfScope
    | NotYetEffective
    | Expired
    | Superseded
    | Revoked
    | ConflictingAuthority
    | AdmissionNotEstablished
    | Admitted

  datatype Lifecycle<T> = Lifecycle(
    effectiveFrom: T, effectiveUntil: Option<T>, supersededAt: Option<T>, revokedAt: Option<T>)

  datatype WarrantStatus = ActiveWarrant | SuspendedWarrant | RevokedWarrant
  datatype Availability = Available | Unavailable
  datatype Freshness = Fresh | Stale | NotObserved

  datatype Warrant<T> = Warrant(
    sourceVersion: string, sourceDigest: string, jurisdiction: string, applicabilityScope: seq<string>,
    lifecycle: Lifecycle<T>, status: WarrantStatus)

  datatype Evidence<T> = Evidence(
    sourceId: string, sourceVersion: string, sourceDigest: string, authorityBasisRef: string,
    jurisdiction: string, applicabilityScope: seq<string>, lifecycle: Lifecycle<T>, warrant: Warrant<T>)

  datatype Anchor = Anchor(sourceId: string, contentHash: string)

  datatype Registration<T> = Registration(
    sourceId: string, sourceVersion: string, sourceDigest: string, availability: Availability, freshness: Freshness,
    registered: bool, jurisdiction: string, applicabilityScope: seq<string>, lifecycle: Lifecycle<T>)

  datatype Input<T> = Input(
    anchors: seq<Anchor>, registration: Registration<T>, evidence: seq<Evidence<T>>,
    jurisdiction: string, applicability: string)

  // ---------------------------------------------------------------- checks on one record

  predicate NotYetEffectiveAt(l: Lifecycle<int>, at: int) { at < l.effectiveFrom }
  predicate Reached(stamp: Option<int>, at: int) { stamp.Some? && at >= stamp.value }
  predicate ExpiredAt(l: Lifecycle<int>, at: int) { Reached(l.effectiveUntil, at) }
  predicate SupersededAt(l: Lifecycle<int>, at: int) { Reached(l.supersededAt, at) }
  predicate RevokedAt(l: Lifecycle<int>, at: int) { Reached(l.revokedAt, at) }

  predicate Contains(jurisdiction: string, scope: seq<string>, i: Input) {
    jurisdiction == i.jurisdiction && i.applicability in scope
  }

  predicate Covers(e: Evidence, i: Input) {
    Contains(e.jurisdiction, e.applicabilityScope, i)
    && Contains(e.warrant.jurisdiction, e.warrant.applicabilityScope, i)
  }

  predicate BindsVersion(e: Evidence, i: Input) {
    e.sourceVersion == i.registration.sourceVersion && e.warrant.sourceVersion == i.registration.sourceVersion
  }

  predicate BindsDigest(e: Evidence, i: Input) {
    e.sourceDigest == i.registration.sourceDigest && e.warrant.sourceDigest == i.registration.sourceDigest
  }

  predicate EvidenceNotYetEffective(e: Evidence<int>, at: int) {
    NotYetEffectiveAt(e.lifecycle, at) || NotYetEffectiveAt(e.warrant.lifecycle, at)
  }

  predicate EvidenceExpired(e: Evidence<int>, at: int) {
    ExpiredAt(e.lifecycle, at) || ExpiredAt(e.warrant.lifecycle, at)
  }

  predicate EvidenceSuperseded(e: Evidence<int>, at: int) {
    SupersededAt(e.lifecycle, at)
  }

  predicate EvidenceRevoked(e: Evidence<int>, at: int) {
    RevokedAt(e.lifecycle, at) || RevokedAt(e.warrant.lifecycle, at) || e.warrant.status == RevokedWarrant
  }

  predicate Operative(e: Evidence<int>, i: Input<int>, at: int) {
    Covers(e, i) && !EvidenceNotYetEffective(e, at) && !EvidenceExpired(e, at) && !EvidenceSuperseded(e, at)
    && !EvidenceRevoked(e, at) && e.warrant.status == ActiveWarrant
  }

  // ---------------------------------------------------------------- the ordered checks

  /** Evidence about the registered source. Only emptiness and universal scans of it are ever read. */
  function Relevant<T(==)>(i: Input<T>): set<Evidence<T>> {
    set e | e in i.evidence && e.sourceId == i.registration.sourceId
  }

  function VersionBound<T(==)>(i: Input<T>): set<Evidence<T>> {
    set e | e in Relevant(i) && BindsVersion(e, i)
  }

  function Bound<T(==)>(i: Input<T>): set<Evidence<T>> {
    set e | e in VersionBound(i) && BindsDigest(e, i)
  }

  function Scoped<T(==)>(i: Input<T>): set<Evidence<T>> {
    set e | e in Bound(i) && Covers(e, i)
  }

  /** Checks 1-4: the candidate's reference, the registry, the registration. */
  function RegistryChecks(i: Input): Option<AdmissionState> {
    if i.anchors == [] then Some(CandidateInputInvalid)
    else if exists a | a in i.anchors :: a.sourceId != i.registration.sourceId then Some(CandidateInputInvalid)
    else if i.registration.availability == Unavailable then Some(AuthorityRegistryUnavailable)
    else if i.registration.availability == Available && i.registration.freshness == Stale then
      Some(AuthorityEvidenceStale)
    else if !i.registration.registered then Some(SourceNotRegistered)
    else None
  }

  /** The order in which checks 5-8 are read. */
  function BindingOf(evidence: bool, version: bool, anchors: bool, bound: bool, covered: bool, scoped: bool)
    : Option<AdmissionState>
  {
    if evidence && !version then Some(SourceVersionMismatch)
    else if !anchors then Some(SourceDigestMismatch)
    else if evidence && !bound then Some(SourceDigestMismatch)
    else if !bound then Some(MissingAuthorityEvidence)
    else if !covered then Some(OutOfScope)
    else if !scoped then Some(OutOfScope)
    else None
  }

  predicate AnchorsMatch(i: Input) {
    forall a | a in i.anchors :: a.contentHash == i.registration.sourceDigest
  }

  predicate RegistrationCovers(i: Input) {
    Contains(i.registration.jurisdiction, i.registration.applicabilityScope, i)
  }

  /** Checks 5-8: version, digest, basis and scope. No timestamp is read. */
  function BindingChecks<T(==)>(i: Input<T>): Option<AdmissionState> {
    BindingOf(i.evidence != [], VersionBound(i) != {}, AnchorsMatch(i), Bound(i) != {}, RegistrationCovers(i),
              Scoped(i) != {})
  }

  predicate NotYetEffectiveCheck(i: Input<int>, at: int) {
    NotYetEffectiveAt(i.registration.lifecycle, at) || forall e | e in Scoped(i) :: EvidenceNotYetEffective(e, at)
  }

  predicate ExpiredCheck(i: Input<int>, at: int) {
    ExpiredAt(i.registration.lifecycle, at) || forall e | e in Scoped(i) :: EvidenceExpired(e, at)
  }

  predicate SupersededCheck(i: Input<int>, at: int) {
    SupersededAt(i.registration.lifecycle, at) || forall e | e in Scoped(i) :: EvidenceSuperseded(e, at)
  }

  predicate RevokedCheck(i: Input<int>, at: int) {
    RevokedAt(i.registration.lifecycle, at) || forall e | e in Scoped(i) :: EvidenceRevoked(e, at)
  }

  /** The distinct authority bases of the operative evidence, whichever source version it speaks to. */
  function OperativeBases(i: Input<int>, at: int): set<string> {
    set e | e in Relevant(i) && Operative(e, i, at) :: e.authorityBasisRef
  }

  predicate ConflictCheck(i: Input<int>, at: int) {
    |OperativeBases(i, at)| >= 2
  }

  predicate NotEstablishedCheck(i: Input<int>, at: int) {
    forall e | e in Scoped(i) :: !Operative(e, i, at)
  }

  /** The order in which checks 9-15 are read. */
  function FirstOf(notYet: bool, expired: bool, superseded: bool, revoked: bool, conflict: bool, unestablished: bool)
    : AdmissionState
  {
    if notYet then NotYetEffective
    else if expired then Expired
    else if superseded then Superseded
    else if revoked then Revoked
    else if conflict then ConflictingAuthority
    else if unestablished then AdmissionNotEstablished
    else Admitted
  }

  /**
   Checks 9-15, over instants. The scoped evidence is nonempty, so the empty-set error of `_all`,
   which the source raises rather than let an empty set prove a lifecycle state, cannot arise.
   */
  function TemporalChecks(i: Input<int>, at: int): AdmissionState
    requires Scoped(i) != {}
  {
    FirstOf(NotYetEffectiveCheck(i, at), ExpiredCheck(i, at), SupersededCheck(i, at), RevokedCheck(i, at),
            ConflictCheck(i, at), NotEstablishedCheck(i, at))
  }

  /** `_evaluate_state` on an input whose timestamps are instants. */
  function State(i: Input<int>, at: int): AdmissionState {
    match RegistryChecks(i)
    case Some(s) => s
    case None =>
      match BindingChecks(i)
      case Some(s) => s
      case None => TemporalChecks(i, at)
  }
}
