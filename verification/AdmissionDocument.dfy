/** From an accepted JSON document to the records the evaluator reads, with timestamps still as written. */
module AdmissionDocument {
  import opened Outcomes
  import opened Json
  import opened JsonAccess
  import opened CanonicalGate
  import opened Evaluator
  import opened EvidenceOrder

  /** What an admission input document says, before any timestamp is parsed. */
  datatype Document = Document(
    input: Input<string>, evaluationTime: string, rulesetId: string, rulesetDigest: string, records: seq<Record>)

  function ReadText(v: Json): Option<string> {
    if v.JString? then Some(v.s) else None
  }

  function TextsField(v: Json, key: string): Option<seq<string>> {
    var items :- ArrayField(v, key);
    ReadAll(items, ReadText)
  }

  function ReadLifecycle(v: Json): Option<Lifecycle<string>> {
    var from :- TextField(v, "effective_from");
    var until :- NullableField(v, "effective_until");
    var superseded :- NullableField(v, "superseded_at");
    var revoked :- NullableField(v, "revoked_at");
    Some(Lifecycle(from, until, superseded, revoked))
  }

  /** A warrant carries no `superseded_at`. */
  function ReadWarrantLifecycle(v: Json): Option<Lifecycle<string>> {
    var from :- TextField(v, "effective_from");
    var until :- NullableField(v, "effective_until");
    var revoked :- NullableField(v, "revoked_at");
    Some(Lifecycle(from, until, None, revoked))
  }

  function ReadStatus(s: string): Option<WarrantStatus> {
    if s == "ACTIVE" then Some(ActiveWarrant)
    else if s == "SUSPENDED" then Some(SuspendedWarrant)
    else if s == "REVOKED" then Some(RevokedWarrant)
    else None
  }

  function ReadWarrant(v: Json): Option<Warrant<string>> {
    var version :- TextField(v, "source_version");
    var digest :- TextField(v, "source_digest");
    var jurisdiction :- TextField(v, "jurisdiction");
    var scope :- TextsField(v, "applicability_scope");
    var lifecycle :- ReadWarrantLifecycle(v);
    var statusText :- TextField(v, "status");
    var status :- ReadStatus(statusText);
    Some(Warrant(version, digest, jurisdiction, scope, lifecycle, status))
  }

  function ReadEvidence(v: Json): Option<Evidence<string>> {
    var source :- TextField(v, "source_id");
    var version :- TextField(v, "source_version");
    var digest :- TextField(v, "source_digest");
    var basis :- TextField(v, "authority_basis_ref");
    var jurisdiction :- TextField(v, "jurisdiction");
    var scope :- TextsField(v, "applicability_scope");
    var lifecycle :- ReadLifecycle(v);
    var warrantValue :- Field(v, "admission_warrant");
    var warrant :- ReadWarrant(warrantValue);
    Some(Evidence(source, version, digest, basis, jurisdiction, scope, lifecycle, warrant))
  }

  /** The identity fields of one evidence object, and the object without its recorded digest. */
  function ReadRecord(v: Json): Option<Record> {
    var id :- TextField(v, "evidence_id");
    var digest :- TextField(v, "evidence_digest");
    Some(Record(id, digest, JObject(v.fields - {"evidence_digest"})))
  }

  function ReadAnchor(v: Json): Option<Anchor> {
    var source :- TextField(v, "source_id");
    var hash :- TextField(v, "content_hash");
    Some(Anchor(source, hash))
  }

  function ReadAvailability(s: string): Option<Availability> {
    if s == "AVAILABLE" then Some(Available) else if s == "UNAVAILABLE" then Some(Unavailable) else None
  }

  function ReadFreshness(s: string): Option<Freshness> {
    if s == "FRESH" then Some(Fresh)
    else if s == "STALE" then Some(Stale)
    else if s == "NOT_OBSERVED" then Some(NotObserved)
    else None
  }

  function ReadRegistration(v: Json): Option<Registration<string>> {
    var source :- TextField(v, "source_id");
    var version :- TextField(v, "source_version");
    var digest :- TextField(v, "source_digest");
    var observation :- Field(v, "registry_observation");
    var availabilityText :- TextField(observation, "availability");
    var availability :- ReadAvailability(availabilityText);
    var freshnessText :- TextField(observation, "freshness");
    var freshness :- ReadFreshness(freshnessText);
    var registered :- Field(v, "registered");
    if !registered.JBool? then None else
    var jurisdiction :- TextField(v, "jurisdiction");
    var scope :- TextsField(v, "applicability_scope");
    var lifecycle :- ReadLifecycle(v);
    Some(Registration(source, version, digest, availability, freshness, registered.b, jurisdiction, scope, lifecycle))
  }

  function ReadAnchors(v: Json): Option<seq<Anchor>> {
    var candidate :- Field(v, "candidate");
    var _ :- TextField(candidate, "unit_id");
    var items :- ArrayField(candidate, "source_anchors");
    ReadAll(items, ReadAnchor)
  }

  function ReadSource(v: Json): Option<Registration<string>> {
    var registration :- Field(v, "source_registration");
    ReadRegistration(registration)
  }

  function ReadAuthority(v: Json): Option<(seq<Evidence<string>>, seq<Record>)> {
    var items :- ArrayField(v, "authority_evidence");
    var evidence :- ReadAll(items, ReadEvidence);
    var records :- ReadAll(items, ReadRecord);
    Some((evidence, records))
  }

  function ReadScope(v: Json): Option<(string, string)> {
    var scope :- Field(v, "evaluation_scope");
    var jurisdiction :- TextField(scope, "jurisdiction");
    var applicability :- TextField(scope, "applicability");
    Some((jurisdiction, applicability))
  }

  function ReadRuleset(v: Json): Option<(string, string)> {
    var ruleset :- Field(v, "ruleset");
    var id :- TextField(ruleset, "ruleset_id");
    var digest :- TextField(ruleset, "ruleset_digest");
    Some((id, digest))
  }

  /** The part of the input schema that later steps rely on: the fields they read exist, with their types. */
  function ReadDocument(v: Json): Option<Document> {
    var anchors :- ReadAnchors(v);
    var registration :- ReadSource(v);
    var (evidence, records) :- ReadAuthority(v);
    var at :- TextField(v, "evaluation_time");
    var (jurisdiction, applicability) :- ReadScope(v);
    var (rulesetId, rulesetDigest) :- ReadRuleset(v);
    Some(Document(Input(anchors, registration, evidence, jurisdiction, applicability), at, rulesetId, rulesetDigest,
                  records))
  }

  // ---------------------------------------------------------------- timestamps

  /** `_instant`: the one accepted timestamp spelling, or nothing. */
  type Clock = string -> Option<int>

  function ParseStamp(s: Option<string>, instant: Clock): Option<Option<int>> {
    if s.None? then Some(None) else
    var t :- instant(s.value);
    Some(Some(t))
  }

  function ParseLifecycle(l: Lifecycle<string>, instant: Clock): Option<Lifecycle<int>> {
    var from :- instant(l.effectiveFrom);
    var until :- ParseStamp(l.effectiveUntil, instant);
    var superseded :- ParseStamp(l.supersededAt, instant);
    var revoked :- ParseStamp(l.revokedAt, instant);
    Some(Lifecycle(from, until, superseded, revoked))
  }

  function ParseEvidence(e: Evidence<string>, instant: Clock): Option<Evidence<int>> {
    var lifecycle :- ParseLifecycle(e.lifecycle, instant);
    var warrantLifecycle :- ParseLifecycle(e.warrant.lifecycle, instant);
    Some(Evidence(e.sourceId, e.sourceVersion, e.sourceDigest, e.authorityBasisRef, e.jurisdiction,
                  e.applicabilityScope, lifecycle,
                  Warrant(e.warrant.sourceVersion, e.warrant.sourceDigest, e.warrant.jurisdiction,
                          e.warrant.applicabilityScope, warrantLifecycle, e.warrant.status)))
  }

  /** The evidence about `sourceId`, parsed; one malformed stamp among it refuses all of it. */
  function ParseRelevant(evidence: seq<Evidence<string>>, sourceId: string, instant: Clock)
    : Option<seq<Evidence<int>>>
  {
    if evidence == [] then Some([])
    else if evidence[0].sourceId != sourceId then ParseRelevant(evidence[1..], sourceId, instant)
    else
      var first :- ParseEvidence(evidence[0], instant);
      var rest :- ParseRelevant(evidence[1..], sourceId, instant);
      Some([first] + rest)
  }

  function WithLifecycle(r: Registration<string>, l: Lifecycle<int>): Registration<int> {
    Registration(r.sourceId, r.sourceVersion, r.sourceDigest, r.availability, r.freshness, r.registered,
                 r.jurisdiction, r.applicabilityScope, l)
  }

  lemma {:induction false} ParsedMembers(evidence: seq<Evidence<string>>, sourceId: string, instant: Clock)
    requires ParseRelevant(evidence, sourceId, instant).Some?
    ensures var parsed := ParseRelevant(evidence, sourceId, instant).value;
            && (forall p | p in parsed ::
                  exists e :: e in evidence && e.sourceId == sourceId && ParseEvidence(e, instant) == Some(p))
            && (forall e | e in evidence && e.sourceId == sourceId ::
                  ParseEvidence(e, instant).Some? && ParseEvidence(e, instant).value in parsed)
  {
    if evidence != [] {
      ParsedMembers(evidence[1..], sourceId, instant);
      assert forall e :: e in evidence <==> e == evidence[0] || e in evidence[1..];
    }
  }

  /** `_evaluate_state` as written: a malformed stamp is an error only where the check order reaches it. */
  function EvaluateDocument(d: Document, instant: Clock): Result<AdmissionState, BoundaryError> {
    var i := d.input;
    match instant(d.evaluationTime)
    case None => Err(TimestampError)
    case Some(at) =>
      match RegistryChecks(i)
      case Some(s) => Ok(s)
      case None =>
        match ParseRelevant(i.evidence, i.registration.sourceId, instant)
        case None => Err(TimestampError)
        case Some(relevant) =>
          match BindingChecks(i)
          case Some(s) => Ok(s)
          case None =>
            match ParseLifecycle(i.registration.lifecycle, instant)
            case None => Err(TimestampError)
            case Some(l) =>
              var parsed := Input(i.anchors, WithLifecycle(i.registration, l), relevant, i.jurisdiction,
                                  i.applicability);
              ScopedSurvivesParsing(i, relevant, l, instant);
              Ok(TemporalChecks(parsed, at))
  }

  lemma InScoped(e: Evidence<int>, i: Input<int>)
    requires e in i.evidence && e.sourceId == i.registration.sourceId
    requires BindsVersion(e, i) && BindsDigest(e, i) && Covers(e, i)
    ensures e in Relevant(i) && e in VersionBound(i) && e in Bound(i) && e in Scoped(i)
  {
  }

  lemma OutOfScoped(e: Evidence<string>, i: Input<string>)
    requires e in Scoped(i)
    ensures e in i.evidence && e.sourceId == i.registration.sourceId
    ensures BindsVersion(e, i) && BindsDigest(e, i) && Covers(e, i)
  {
  }

  lemma ScopedSurvivesParsing(i: Input<string>, relevant: seq<Evidence<int>>, l: Lifecycle<int>, instant: Clock)
    requires ParseRelevant(i.evidence, i.registration.sourceId, instant) == Some(relevant) && Scoped(i) != {}
    ensures Scoped(Input(i.anchors, WithLifecycle(i.registration, l), relevant, i.jurisdiction, i.applicability)) != {}
  {
    ParsedMembers(i.evidence, i.registration.sourceId, instant);
    var e :| e in Scoped(i);
    OutOfScoped(e, i);
    var p := ParseEvidence(e, instant).value;
    InScoped(p, Input(i.anchors, WithLifecycle(i.registration, l), relevant, i.jurisdiction, i.applicability));
  }

  function ParseEvery(evidence: seq<Evidence<string>>, instant: Clock): (r: Option<seq<Evidence<int>>>)
    ensures r.Some? ==> |r.value| == |evidence|
    ensures r.Some? ==> forall k | 0 <= k < |evidence| :: ParseEvidence(evidence[k], instant) == Some(r.value[k])
  {
    if evidence == [] then Some([]) else
    var first :- ParseEvidence(evidence[0], instant);
    var rest :- ParseEvery(evidence[1..], instant);
    Some([first] + rest)
  }

  /** The whole input with every stamp parsed, when every stamp does. */
  function ParseInput(i: Input<string>, instant: Clock): Option<Input<int>> {
    var l :- ParseLifecycle(i.registration.lifecycle, instant);
    var evidence :- ParseEvery(i.evidence, instant);
    Some(Input(i.anchors, WithLifecycle(i.registration, l), evidence, i.jurisdiction, i.applicability))
  }

  // ---------------------------------------------------------------- agreement with the typed evaluator

  /** `p` is `e` with its stamps parsed, so both say the same about everything but time. */
  lemma ParsingKeepsFacts(e: Evidence<string>, p: Evidence<int>, i: Input<string>, j: Input<int>, instant: Clock)
    requires ParseEvidence(e, instant) == Some(p) && SameBinding(i, j)
    ensures e.sourceId == i.registration.sourceId <==> p.sourceId == j.registration.sourceId
    ensures BindsVersion(e, i) <==> BindsVersion(p, j)
    ensures BindsDigest(e, i) <==> BindsDigest(p, j)
    ensures Covers(e, i) <==> Covers(p, j)
  {
  }

  /** The two inputs agree on everything but stamps and evidence. */
  ghost predicate SameBinding(i: Input<string>, j: Input<int>) {
    exists l :: j.registration == WithLifecycle(i.registration, l)
      && i.anchors == j.anchors && i.jurisdiction == j.jurisdiction && i.applicability == j.applicability
  }

  /** Every record of `i` has a parsed counterpart in `j`, and the other way round. */
  ghost predicate Counterparts(i: Input<string>, j: Input<int>, instant: Clock) {
    && SameBinding(i, j)
    && (forall e | e in i.evidence :: ParseEvidence(e, instant).Some? && ParseEvidence(e, instant).value in j.evidence)
    && (forall p | p in j.evidence :: exists e :: e in i.evidence && ParseEvidence(e, instant) == Some(p))
  }

  lemma ParseInputCounterparts(i: Input<string>, j: Input<int>, instant: Clock)
    requires ParseInput(i, instant) == Some(j)
    ensures Counterparts(i, j, instant)
  {
    var l := ParseLifecycle(i.registration.lifecycle, instant).value;
    assert j.registration == WithLifecycle(i.registration, l);
    forall e | e in i.evidence
      ensures ParseEvidence(e, instant).Some? && ParseEvidence(e, instant).value in j.evidence
    {
      var k :| 0 <= k < |i.evidence| && i.evidence[k] == e;
      assert j.evidence[k] in j.evidence;
    }
    forall p | p in j.evidence ensures exists e :: e in i.evidence && ParseEvidence(e, instant) == Some(p) {
      var k :| 0 <= k < |j.evidence| && j.evidence[k] == p;
      assert i.evidence[k] in i.evidence;
    }
  }

  lemma VersionBoundCounterparts(i: Input<string>, j: Input<int>, instant: Clock)
    requires Counterparts(i, j, instant)
    ensures VersionBound(i) == {} <==> VersionBound(j) == {}
  {
    if e :| e in VersionBound(i) {
      var p := ParseEvidence(e, instant).value;
      ParsingKeepsFacts(e, p, i, j, instant);
      assert p in Relevant(j) && p in VersionBound(j);
    }
    if p :| p in VersionBound(j) {
      var e :| e in i.evidence && ParseEvidence(e, instant) == Some(p);
      ParsingKeepsFacts(e, p, i, j, instant);
      assert e in Relevant(i) && e in VersionBound(i);
    }
  }

  lemma BoundCounterparts(i: Input<string>, j: Input<int>, instant: Clock)
    requires Counterparts(i, j, instant)
    ensures Bound(i) == {} <==> Bound(j) == {}
  {
    if e :| e in Bound(i) {
      var p := ParseEvidence(e, instant).value;
      ParsingKeepsFacts(e, p, i, j, instant);
      assert p in Relevant(j) && p in VersionBound(j) && p in Bound(j);
    }
    if p :| p in Bound(j) {
      var e :| e in i.evidence && ParseEvidence(e, instant) == Some(p);
      ParsingKeepsFacts(e, p, i, j, instant);
      assert e in Relevant(i) && e in VersionBound(i) && e in Bound(i);
    }
  }

  lemma ScopedCounterparts(i: Input<string>, j: Input<int>, instant: Clock)
    requires Counterparts(i, j, instant)
    ensures Scoped(i) == {} <==> Scoped(j) == {}
  {
    if e :| e in Scoped(i) {
      var p := ParseEvidence(e, instant).value;
      ParsingKeepsFacts(e, p, i, j, instant);
      assert p in Relevant(j) && p in VersionBound(j) && p in Bound(j) && p in Scoped(j);
    }
    if p :| p in Scoped(j) {
      var e :| e in i.evidence && ParseEvidence(e, instant) == Some(p);
      ParsingKeepsFacts(e, p, i, j, instant);
      assert e in Relevant(i) && e in VersionBound(i) && e in Bound(i) && e in Scoped(i);
    }
  }

  lemma RegistrationSurvivesParsing(i: Input<string>, j: Input<int>)
    requires SameBinding(i, j)
    ensures RegistryChecks(i) == RegistryChecks(j)
    ensures AnchorsMatch(i) == AnchorsMatch(j) && RegistrationCovers(i) == RegistrationCovers(j)
  {
  }

  lemma BindingSurvivesParsing(i: Input<string>, j: Input<int>, instant: Clock)
    requires ParseInput(i, instant) == Some(j)
    ensures RegistryChecks(i) == RegistryChecks(j) && BindingChecks(i) == BindingChecks(j)
  {
    assert (i.evidence != []) == (j.evidence != []);
    assert SameBinding(i, j) by { ParseInputCounterparts(i, j, instant); }
    RegistrationSurvivesParsing(i, j);
    assert (VersionBound(i) != {}) == (VersionBound(j) != {}) by {
      ParseInputCounterparts(i, j, instant);
      VersionBoundCounterparts(i, j, instant);
    }
    assert (Bound(i) != {}) == (Bound(j) != {}) by {
      ParseInputCounterparts(i, j, instant);
      BoundCounterparts(i, j, instant);
    }
    assert (Scoped(i) != {}) == (Scoped(j) != {}) by {
      ParseInputCounterparts(i, j, instant);
      ScopedCounterparts(i, j, instant);
    }
  }

  lemma {:induction false} RelevantParses(evidence: seq<Evidence<string>>, sourceId: string, instant: Clock)
    requires ParseEvery(evidence, instant).Some?
    ensures ParseRelevant(evidence, sourceId, instant).Some?
    ensures forall p :: p in ParseRelevant(evidence, sourceId, instant).value <==>
                        p in ParseEvery(evidence, instant).value && p.sourceId == sourceId
  {
    if evidence != [] {
      RelevantParses(evidence[1..], sourceId, instant);
      var first := ParseEvidence(evidence[0], instant).value;
      assert ParseEvery(evidence, instant).value == [first] + ParseEvery(evidence[1..], instant).value;
    }
  }

  lemma SameScoped(i: Input<int>, j: Input<int>)
    requires i.registration == j.registration && i.jurisdiction == j.jurisdiction && i.applicability == j.applicability
    requires Relevant(i) == Relevant(j)
    ensures Scoped(i) == Scoped(j)
  {
    assert VersionBound(i) == VersionBound(j);
    assert Bound(i) == Bound(j);
  }

  lemma SameOperative(i: Input<int>, j: Input<int>, at: int)
    requires i.jurisdiction == j.jurisdiction && i.applicability == j.applicability && Relevant(i) == Relevant(j)
    ensures forall e :: Operative(e, i, at) <==> Operative(e, j, at)
    ensures OperativeBases(i, at) == OperativeBases(j, at)
  {
    forall e ensures Operative(e, i, at) <==> Operative(e, j, at) {
      assert Covers(e, i) <==> Covers(e, j);
    }
  }

  lemma SameLifecycleChecks(i: Input<int>, j: Input<int>, at: int)
    requires i.registration == j.registration && Scoped(i) == Scoped(j)
    ensures NotYetEffectiveCheck(i, at) == NotYetEffectiveCheck(j, at) && ExpiredCheck(i, at) == ExpiredCheck(j, at)
    ensures SupersededCheck(i, at) == SupersededCheck(j, at) && RevokedCheck(i, at) == RevokedCheck(j, at)
  {
  }

  lemma SameLiveChecks(i: Input<int>, j: Input<int>, at: int)
    requires i.jurisdiction == j.jurisdiction && i.applicability == j.applicability
    requires Relevant(i) == Relevant(j) && Scoped(i) == Scoped(j)
    ensures ConflictCheck(i, at) == ConflictCheck(j, at) && NotEstablishedCheck(i, at) == NotEstablishedCheck(j, at)
  {
    SameOperative(i, j, at);
  }

  /** The temporal checks read only the evidence about the registered source. */
  lemma TemporalChecksReadRelevant(i: Input<int>, j: Input<int>, at: int)
    requires i.registration == j.registration && i.jurisdiction == j.jurisdiction && i.applicability == j.applicability
    requires Relevant(i) == Relevant(j) && Scoped(i) != {}
    ensures Scoped(j) != {} && TemporalChecks(i, at) == TemporalChecks(j, at)
  {
    SameScoped(i, j);
    SameLifecycleChecks(i, j, at);
    SameLiveChecks(i, j, at);
  }

  /** When every stamp parses, the document has exactly the typed evaluator's outcome. */
  lemma DocumentRefinesState(d: Document, j: Input<int>, at: int, instant: Clock)
    requires ParseInput(d.input, instant) == Some(j) && instant(d.evaluationTime) == Some(at)
    ensures EvaluateDocument(d, instant) == Ok(State(j, at))
  {
    var i := d.input;
    BindingSurvivesParsing(i, j, instant);
    RelevantParses(i.evidence, i.registration.sourceId, instant);
    if RegistryChecks(i).None? && BindingChecks(i).None? {
      var relevant := ParseRelevant(i.evidence, i.registration.sourceId, instant).value;
      var parsed := Input(i.anchors, j.registration, relevant, i.jurisdiction, i.applicability);
      assert Relevant(j) == Relevant(parsed);
      TemporalChecksReadRelevant(j, parsed, at);
    }
  }

  // ---------------------------------------------------------------- malformed stamps

  predicate StampOf(s: string, l: Lifecycle<string>) {
    s == l.effectiveFrom || l.effectiveUntil == Some(s) || l.supersededAt == Some(s) || l.revokedAt == Some(s)
  }

  predicate EvidenceStamp(s: string, e: Evidence<string>) {
    StampOf(s, e.lifecycle) || StampOf(s, e.warrant.lifecycle)
  }

  /**
   The stamps the check order reads: the evaluation time; past the registry checks, those of the evidence
   about the registered source; past the binding checks, those of the registration.
   */
  predicate StampReached(s: string, d: Document) {
    var i := d.input;
    || s == d.evaluationTime
    || (RegistryChecks(i).None?
        && exists e | e in i.evidence :: e.sourceId == i.registration.sourceId && EvidenceStamp(s, e))
    || (RegistryChecks(i).None? && BindingChecks(i).None? && StampOf(s, i.registration.lifecycle))
  }

  lemma LifecycleParses(l: Lifecycle<string>, instant: Clock)
    ensures ParseLifecycle(l, instant).None? <==> exists s :: StampOf(s, l) && instant(s).None?
  {
    assert StampOf(l.effectiveFrom, l);
    assert l.effectiveUntil.Some? ==> StampOf(l.effectiveUntil.value, l);
    assert l.supersededAt.Some? ==> StampOf(l.supersededAt.value, l);
    assert l.revokedAt.Some? ==> StampOf(l.revokedAt.value, l);
  }

  lemma EvidenceParses(e: Evidence<string>, instant: Clock)
    ensures ParseEvidence(e, instant).None? <==> exists s :: EvidenceStamp(s, e) && instant(s).None?
  {
    LifecycleParses(e.lifecycle, instant);
    LifecycleParses(e.warrant.lifecycle, instant);
    if s :| StampOf(s, e.lifecycle) && instant(s).None? {
      assert EvidenceStamp(s, e);
    }
    if s :| StampOf(s, e.warrant.lifecycle) && instant(s).None? {
      assert EvidenceStamp(s, e);
    }
  }

  lemma {:induction false} RelevantRefused(evidence: seq<Evidence<string>>, sourceId: string, instant: Clock)
    ensures ParseRelevant(evidence, sourceId, instant).None? <==>
              exists e :: e in evidence && e.sourceId == sourceId && ParseEvidence(e, instant).None?
  {
    if evidence != [] {
      RelevantRefused(evidence[1..], sourceId, instant);
      assert forall e :: e in evidence <==> e == evidence[0] || e in evidence[1..];
    }
  }

  lemma RelevantStamps(d: Document, instant: Clock)
    requires RegistryChecks(d.input).None?
    ensures var i := d.input;
            ParseRelevant(i.evidence, i.registration.sourceId, instant).None? <==>
              exists e, s :: e in i.evidence && e.sourceId == i.registration.sourceId && EvidenceStamp(s, e)
                             && instant(s).None?
  {
    var i := d.input;
    RelevantRefused(i.evidence, i.registration.sourceId, instant);
    forall e ensures ParseEvidence(e, instant).None? <==> exists s :: EvidenceStamp(s, e) && instant(s).None? {
      EvidenceParses(e, instant);
    }
  }

  /** The evaluation refuses a document exactly when some stamp that the check order reads is malformed. */
  lemma TimestampErrorExactly(d: Document, instant: Clock)
    ensures EvaluateDocument(d, instant) == Err(TimestampError) <==> exists s :: StampReached(s, d) && instant(s).None?
    ensures EvaluateDocument(d, instant).Err? ==> EvaluateDocument(d, instant) == Err(TimestampError)
  {
    var i := d.input;
    assert StampReached(d.evaluationTime, d);
    if RegistryChecks(i).None? {
      RelevantStamps(d, instant);
      LifecycleParses(i.registration.lifecycle, instant);
      if e, s :| e in i.evidence && e.sourceId == i.registration.sourceId && EvidenceStamp(s, e) && instant(s).None? {
        assert StampReached(s, d);
      }
      if s :| StampOf(s, i.registration.lifecycle) && instant(s).None? {
        assert BindingChecks(i).None? ==> StampReached(s, d);
      }
    }
  }

  lemma SameLifecycle(l: Lifecycle<string>, instant: Clock, other: Clock)
    requires forall s | StampOf(s, l) :: instant(s) == other(s)
    ensures ParseLifecycle(l, instant) == ParseLifecycle(l, other)
  {
    assert StampOf(l.effectiveFrom, l);
    assert l.effectiveUntil.Some? ==> StampOf(l.effectiveUntil.value, l);
    assert l.supersededAt.Some? ==> StampOf(l.supersededAt.value, l);
    assert l.revokedAt.Some? ==> StampOf(l.revokedAt.value, l);
  }

  lemma {:induction false} SameRelevant(evidence: seq<Evidence<string>>, sourceId: string, instant: Clock, other: Clock)
    requires forall e, s | e in evidence && e.sourceId == sourceId && EvidenceStamp(s, e) :: instant(s) == other(s)
    ensures ParseRelevant(evidence, sourceId, instant) == ParseRelevant(evidence, sourceId, other)
  {
    if evidence != [] {
      assert forall e | e in evidence[1..] :: e in evidence;
      SameRelevant(evidence[1..], sourceId, instant, other);
      var e := evidence[0];
      if e.sourceId == sourceId {
        forall s | StampOf(s, e.lifecycle) || StampOf(s, e.warrant.lifecycle) ensures instant(s) == other(s) {
          assert EvidenceStamp(s, e);
        }
        SameLifecycle(e.lifecycle, instant, other);
        SameLifecycle(e.warrant.lifecycle, instant, other);
      }
    }
  }

  /** A stamp the check order does not read never changes the result, malformed or not. */
  lemma OnlyReachedStampsMatter(d: Document, instant: Clock, other: Clock)
    requires forall s | StampReached(s, d) :: instant(s) == other(s)
    ensures EvaluateDocument(d, instant) == EvaluateDocument(d, other)
  {
    var i := d.input;
    assert StampReached(d.evaluationTime, d);
    if RegistryChecks(i).None? {
      forall e, s | e in i.evidence && e.sourceId == i.registration.sourceId && EvidenceStamp(s, e)
        ensures instant(s) == other(s)
      {
        assert StampReached(s, d);
      }
      SameRelevant(i.evidence, i.registration.sourceId, instant, other);
      if BindingChecks(i).None? {
        forall s | StampOf(s, i.registration.lifecycle) ensures instant(s) == other(s) {
          assert StampReached(s, d);
        }
        SameLifecycle(i.registration.lifecycle, instant, other);
      }
    }
  }

  /**
   So a document whose reached stamps parse has the typed evaluator's outcome, whichever instants the
   others are given.
   */
  lemma ReachedStampsDecide(d: Document, j: Input<int>, at: int, instant: Clock, total: Clock)
    requires forall s | StampReached(s, d) :: instant(s) == total(s)
    requires ParseInput(d.input, total) == Some(j) && total(d.evaluationTime) == Some(at)
    ensures EvaluateDocument(d, instant) == Ok(State(j, at))
  {
    OnlyReachedStampsMatter(d, instant, total);
    DocumentRefinesState(d, j, at, total);
  }
}
