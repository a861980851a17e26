/**
 Which JSON document a typed admission input stands for, key by key, and which instants it stands for, stamp
 by stamp: what reading a document and parsing its stamps come to.
 */
module AdmissionSpelling {
  import opened Outcomes
  import opened Json
  import opened JsonAccess
  import opened Evaluator
  import opened EvidenceOrder
  import opened AdmissionDocument

  // ---------------------------------------------------------------- keys

  ghost predicate SpellsTexts(v: Json, key: string, texts: seq<string>) {
    && Field(v, key).Some? && Field(v, key).value.JArray? && |Field(v, key).value.items| == |texts|
    && forall k | 0 <= k < |texts| :: Field(v, key).value.items[k] == JString(texts[k])
  }

  ghost predicate SpellsLifecycle(v: Json, l: Lifecycle<string>) {
    && TextField(v, "effective_from") == Some(l.effectiveFrom)
    && NullableField(v, "effective_until") == Some(l.effectiveUntil)
    && NullableField(v, "superseded_at") == Some(l.supersededAt)
    && NullableField(v, "revoked_at") == Some(l.revokedAt)
  }

  ghost predicate SpellsScope(v: Json, jurisdiction: string, applicability: seq<string>) {
    TextField(v, "jurisdiction") == Some(jurisdiction) && SpellsTexts(v, "applicability_scope", applicability)
  }

  ghost predicate SpellsWarrant(v: Json, w: Warrant<string>) {
    && TextField(v, "source_version") == Some(w.sourceVersion) && TextField(v, "source_digest") == Some(w.sourceDigest)
    && SpellsScope(v, w.jurisdiction, w.applicabilityScope)
    && TextField(v, "effective_from") == Some(w.lifecycle.effectiveFrom)
    && NullableField(v, "effective_until") == Some(w.lifecycle.effectiveUntil)
    && NullableField(v, "revoked_at") == Some(w.lifecycle.revokedAt) && w.lifecycle.supersededAt == None
    && SpellsStatus(v, w.status)
  }

  ghost predicate SpellsStatus(v: Json, s: WarrantStatus) {
    match s
    case ActiveWarrant => TextField(v, "status") == Some("ACTIVE")
    case SuspendedWarrant => TextField(v, "status") == Some("SUSPENDED")
    case RevokedWarrant => TextField(v, "status") == Some("REVOKED")
  }

  ghost predicate SpellsEvidence(v: Json, e: Evidence<string>) {
    && TextField(v, "source_id") == Some(e.sourceId) && TextField(v, "source_version") == Some(e.sourceVersion)
    && TextField(v, "source_digest") == Some(e.sourceDigest)
    && TextField(v, "authority_basis_ref") == Some(e.authorityBasisRef)
    && SpellsScope(v, e.jurisdiction, e.applicabilityScope) && SpellsLifecycle(v, e.lifecycle)
    && Field(v, "admission_warrant").Some? && SpellsWarrant(Field(v, "admission_warrant").value, e.warrant)
  }

  /** The identity of a record, and the record without its own digest. */
  ghost predicate SpellsRecord(v: Json, r: Record) {
    && TextField(v, "evidence_id") == Some(r.id) && TextField(v, "evidence_digest") == Some(r.digest)
    && r.body.JObject? && v.JObject?
    && forall key :: Field(r.body, key) == if key == "evidence_digest" then None else Field(v, key)
  }

  ghost predicate SpellsAnchor(v: Json, a: Anchor) {
    TextField(v, "source_id") == Some(a.sourceId) && TextField(v, "content_hash") == Some(a.contentHash)
  }

  ghost predicate SpellsObservation(v: Json, availability: Availability, freshness: Freshness) {
    && TextField(v, "availability") == Some(if availability == Available then "AVAILABLE" else "UNAVAILABLE")
    && match freshness
       case Fresh => TextField(v, "freshness") == Some("FRESH")
       case Stale => TextField(v, "freshness") == Some("STALE")
       case NotObserved => TextField(v, "freshness") == Some("NOT_OBSERVED")
  }

  ghost predicate SpellsRegistration(v: Json, r: Registration<string>) {
    && TextField(v, "source_id") == Some(r.sourceId) && TextField(v, "source_version") == Some(r.sourceVersion)
    && TextField(v, "source_digest") == Some(r.sourceDigest)
    && Field(v, "registry_observation").Some?
    && SpellsObservation(Field(v, "registry_observation").value, r.availability, r.freshness)
    && Field(v, "registered") == Some(JBool(r.registered))
    && SpellsScope(v, r.jurisdiction, r.applicabilityScope) && SpellsLifecycle(v, r.lifecycle)
  }

  ghost predicate SpellsCandidate(v: Json, anchors: seq<Anchor>) {
    TextField(v, "unit_id").Some?
    && var items := ArrayField(v, "source_anchors");
       && items.Some? && |items.value| == |anchors|
       && forall k | 0 <= k < |anchors| :: SpellsAnchor(items.value[k], anchors[k])
  }

  ghost predicate SpellsAuthority(v: Json, evidence: seq<Evidence<string>>, records: seq<Record>) {
    var items := ArrayField(v, "authority_evidence");
    && items.Some? && |items.value| == |evidence| == |records|
    && (forall k | 0 <= k < |evidence| :: SpellsEvidence(items.value[k], evidence[k]))
    && forall k | 0 <= k < |records| :: SpellsRecord(items.value[k], records[k])
  }

  /** The whole document, key by key. */
  ghost predicate Spells(v: Json, d: Document) {
    && Field(v, "candidate").Some? && SpellsCandidate(Field(v, "candidate").value, d.input.anchors)
    && Field(v, "source_registration").Some?
    && SpellsRegistration(Field(v, "source_registration").value, d.input.registration)
    && SpellsAuthority(v, d.input.evidence, d.records)
    && TextField(v, "evaluation_time") == Some(d.evaluationTime)
    && SpellsRequest(v, d.input.jurisdiction, d.input.applicability) && SpellsRuleset(v, d.rulesetId, d.rulesetDigest)
  }

  ghost predicate SpellsRequest(v: Json, jurisdiction: string, applicability: string) {
    && Field(v, "evaluation_scope").Some?
    && TextField(Field(v, "evaluation_scope").value, "jurisdiction") == Some(jurisdiction)
    && TextField(Field(v, "evaluation_scope").value, "applicability") == Some(applicability)
  }

  ghost predicate SpellsRuleset(v: Json, id: string, digest: string) {
    && Field(v, "ruleset").Some?
    && TextField(Field(v, "ruleset").value, "ruleset_id") == Some(id)
    && TextField(Field(v, "ruleset").value, "ruleset_digest") == Some(digest)
  }

  // ---------------------------------------------------------------- reading is spelling backwards

  lemma ReadAllExact<A>(items: seq<Json>, read: Json -> Option<A>, values: seq<A>)
    ensures ReadAll(items, read) == Some(values) <==>
              |items| == |values| && forall k | 0 <= k < |items| :: read(items[k]) == Some(values[k])
  {
    if |items| == |values| && forall k | 0 <= k < |items| :: read(items[k]) == Some(values[k]) {
      ReadAllOf(items, read, values);
    }
  }

  lemma TextsExact(v: Json, key: string, texts: seq<string>)
    ensures TextsField(v, key) == Some(texts) <==> SpellsTexts(v, key, texts)
  {
    if ArrayField(v, key).Some? {
      ReadAllExact(ArrayField(v, key).value, ReadText, texts);
    }
  }

  lemma LifecycleExact(v: Json, l: Lifecycle<string>)
    ensures ReadLifecycle(v) == Some(l) <==> SpellsLifecycle(v, l)
  {
  }

  lemma StatusExact(v: Json, s: WarrantStatus)
    ensures TextField(v, "status").Some? && ReadStatus(TextField(v, "status").value) == Some(s) <==> SpellsStatus(v, s)
  {
    assert "ACTIVE"[0] != "SUSPENDED"[0] && "SUSPENDED"[0] != "REVOKED"[0] && "ACTIVE"[0] != "REVOKED"[0];
  }

  lemma WarrantExact(v: Json, w: Warrant<string>)
    ensures ReadWarrant(v) == Some(w) <==> SpellsWarrant(v, w)
  {
    TextsExact(v, "applicability_scope", w.applicabilityScope);
    StatusExact(v, w.status);
  }

  lemma EvidenceExact(v: Json, e: Evidence<string>)
    ensures ReadEvidence(v) == Some(e) <==> SpellsEvidence(v, e)
  {
    TextsExact(v, "applicability_scope", e.applicabilityScope);
    LifecycleExact(v, e.lifecycle);
    if Field(v, "admission_warrant").Some? {
      WarrantExact(Field(v, "admission_warrant").value, e.warrant);
    }
  }

  lemma SameFields(a: map<string, Json>, b: map<string, Json>)
    requires forall key :: Field(JObject(a), key) == Field(JObject(b), key)
    ensures a == b
  {
    forall key ensures key in a <==> key in b
               ensures key in a && key in b ==> a[key] == b[key]
    {
      assert Field(JObject(a), key) == Field(JObject(b), key);
    }
  }

  lemma RecordExact(v: Json, r: Record)
    ensures ReadRecord(v) == Some(r) <==> SpellsRecord(v, r)
  {
    if SpellsRecord(v, r) {
      SameFields(r.body.fields, v.fields - {"evidence_digest"});
    }
  }

  lemma AnchorExact(v: Json, a: Anchor)
    ensures ReadAnchor(v) == Some(a) <==> SpellsAnchor(v, a)
  {
  }

  lemma ObservationExact(v: Json, availability: Availability, freshness: Freshness)
    ensures SpellsObservation(v, availability, freshness) <==>
              && TextField(v, "availability").Some? && TextField(v, "freshness").Some?
              && ReadAvailability(TextField(v, "availability").value) == Some(availability)
              && ReadFreshness(TextField(v, "freshness").value) == Some(freshness)
  {
    assert "AVAILABLE"[0] != "UNAVAILABLE"[0];
    assert "FRESH"[0] != "STALE"[0] && "STALE"[0] != "NOT_OBSERVED"[0] && "FRESH"[0] != "NOT_OBSERVED"[0];
  }

  lemma RegistrationExact(v: Json, r: Registration<string>)
    ensures ReadRegistration(v) == Some(r) <==> SpellsRegistration(v, r)
  {
    TextsExact(v, "applicability_scope", r.applicabilityScope);
    LifecycleExact(v, r.lifecycle);
    if Field(v, "registry_observation").Some? {
      ObservationExact(Field(v, "registry_observation").value, r.availability, r.freshness);
    }
  }

  lemma CandidateExact(v: Json, anchors: seq<Anchor>)
    ensures ReadAnchors(v) == Some(anchors) <==>
              Field(v, "candidate").Some? && SpellsCandidate(Field(v, "candidate").value, anchors)
  {
    if Field(v, "candidate").Some? && ArrayField(Field(v, "candidate").value, "source_anchors").Some? {
      var items := ArrayField(Field(v, "candidate").value, "source_anchors").value;
      ReadAllExact(items, ReadAnchor, anchors);
      forall w, a ensures ReadAnchor(w) == Some(a) <==> SpellsAnchor(w, a) {
        AnchorExact(w, a);
      }
    }
  }

  lemma AuthorityExact(v: Json, evidence: seq<Evidence<string>>, records: seq<Record>)
    ensures ReadAuthority(v) == Some((evidence, records)) <==> SpellsAuthority(v, evidence, records)
  {
    if ArrayField(v, "authority_evidence").Some? {
      var items := ArrayField(v, "authority_evidence").value;
      ReadAllExact(items, ReadEvidence, evidence);
      ReadAllExact(items, ReadRecord, records);
      forall w, e ensures ReadEvidence(w) == Some(e) <==> SpellsEvidence(w, e) {
        EvidenceExact(w, e);
      }
      forall w, r ensures ReadRecord(w) == Some(r) <==> SpellsRecord(w, r) {
        RecordExact(w, r);
      }
    }
  }

  lemma SourceExact(v: Json, r: Registration<string>)
    ensures ReadSource(v) == Some(r) <==>
              Field(v, "source_registration").Some? && SpellsRegistration(Field(v, "source_registration").value, r)
  {
    if Field(v, "source_registration").Some? {
      RegistrationExact(Field(v, "source_registration").value, r);
    }
  }

  lemma RequestExact(v: Json, jurisdiction: string, applicability: string)
    ensures ReadScope(v) == Some((jurisdiction, applicability)) <==> SpellsRequest(v, jurisdiction, applicability)
  {
  }

  lemma RulesetExact(v: Json, id: string, digest: string)
    ensures ReadRuleset(v) == Some((id, digest)) <==> SpellsRuleset(v, id, digest)
  {
  }

  lemma PartsExact(v: Json, d: Document)
    ensures ReadDocument(v) == Some(d) <==>
              && ReadAnchors(v) == Some(d.input.anchors) && ReadSource(v) == Some(d.input.registration)
              && ReadAuthority(v) == Some((d.input.evidence, d.records))
              && TextField(v, "evaluation_time") == Some(d.evaluationTime)
              && ReadScope(v) == Some((d.input.jurisdiction, d.input.applicability))
              && ReadRuleset(v) == Some((d.rulesetId, d.rulesetDigest))
  {
  }

  /** A document is read as `d` exactly when it spells `d`, key by key. */
  lemma ReadExactly(v: Json, d: Document)
    ensures ReadDocument(v) == Some(d) <==> Spells(v, d)
  {
    PartsExact(v, d);
    CandidateExact(v, d.input.anchors);
    SourceExact(v, d.input.registration);
    AuthorityExact(v, d.input.evidence, d.records);
    RequestExact(v, d.input.jurisdiction, d.input.applicability);
    RulesetExact(v, d.rulesetId, d.rulesetDigest);
  }

  // ---------------------------------------------------------------- stamps

  ghost predicate Stamped(s: Option<string>, t: Option<int>, instant: Clock) {
    match s
    case None => t == None
    case Some(text) => instant(text).Some? && t == instant(text)
  }

  ghost predicate StampedLifecycle(l: Lifecycle<string>, m: Lifecycle<int>, instant: Clock) {
    && instant(l.effectiveFrom) == Some(m.effectiveFrom) && Stamped(l.effectiveUntil, m.effectiveUntil, instant)
    && Stamped(l.supersededAt, m.supersededAt, instant) && Stamped(l.revokedAt, m.revokedAt, instant)
  }

  /** `p` is `e` with an instant for every stamp. */
  ghost predicate StampedEvidence(e: Evidence<string>, p: Evidence<int>, instant: Clock) {
    && p.sourceId == e.sourceId && p.sourceVersion == e.sourceVersion && p.sourceDigest == e.sourceDigest
    && p.authorityBasisRef == e.authorityBasisRef
    && p.jurisdiction == e.jurisdiction && p.applicabilityScope == e.applicabilityScope
    && StampedLifecycle(e.lifecycle, p.lifecycle, instant)
    && p.warrant.sourceVersion == e.warrant.sourceVersion && p.warrant.sourceDigest == e.warrant.sourceDigest
    && p.warrant.jurisdiction == e.warrant.jurisdiction
    && p.warrant.applicabilityScope == e.warrant.applicabilityScope && p.warrant.status == e.warrant.status
    && StampedLifecycle(e.warrant.lifecycle, p.warrant.lifecycle, instant)
  }

  ghost predicate StampedRegistration(r: Registration<string>, q: Registration<int>, instant: Clock) {
    && q.sourceId == r.sourceId && q.sourceVersion == r.sourceVersion && q.sourceDigest == r.sourceDigest
    && q.availability == r.availability && q.freshness == r.freshness && q.registered == r.registered
    && q.jurisdiction == r.jurisdiction && q.applicabilityScope == r.applicabilityScope
    && StampedLifecycle(r.lifecycle, q.lifecycle, instant)
  }

  ghost predicate StampedInput(i: Input<string>, j: Input<int>, instant: Clock) {
    && j.anchors == i.anchors && j.jurisdiction == i.jurisdiction && j.applicability == i.applicability
    && StampedRegistration(i.registration, j.registration, instant) && |j.evidence| == |i.evidence|
    && forall k | 0 <= k < |i.evidence| :: StampedEvidence(i.evidence[k], j.evidence[k], instant)
  }

  lemma LifecycleStamps(l: Lifecycle<string>, m: Lifecycle<int>, instant: Clock)
    ensures ParseLifecycle(l, instant) == Some(m) <==> StampedLifecycle(l, m, instant)
  {
  }

  lemma EvidenceStamps(e: Evidence<string>, p: Evidence<int>, instant: Clock)
    ensures ParseEvidence(e, instant) == Some(p) <==> StampedEvidence(e, p, instant)
  {
    LifecycleStamps(e.lifecycle, p.lifecycle, instant);
    LifecycleStamps(e.warrant.lifecycle, p.warrant.lifecycle, instant);
  }

  lemma {:induction false} EveryStamp(evidence: seq<Evidence<string>>, parsed: seq<Evidence<int>>, instant: Clock)
    ensures ParseEvery(evidence, instant) == Some(parsed) <==>
              && |parsed| == |evidence|
              && forall k | 0 <= k < |evidence| :: StampedEvidence(evidence[k], parsed[k], instant)
  {
    if evidence != [] {
      if parsed != [] {
        EvidenceStamps(evidence[0], parsed[0], instant);
        EveryStamp(evidence[1..], parsed[1..], instant);
        assert parsed == [parsed[0]] + parsed[1..];
      }
    }
  }

  /** An input parses to `j` exactly when `j` has, field by field, the instants its stamps are read as. */
  lemma ParsesExactly(i: Input<string>, j: Input<int>, instant: Clock)
    ensures ParseInput(i, instant) == Some(j) <==> StampedInput(i, j, instant)
  {
    LifecycleStamps(i.registration.lifecycle, j.registration.lifecycle, instant);
    EveryStamp(i.evidence, j.evidence, instant);
  }
}
