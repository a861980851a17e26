/** A document that is issued an ADMITTED receipt, for every digest and every clock that reads its one stamp. */
module AdmissionWitness {
  import opened Outcomes
  import opened Utf8
  import opened Json
  import opened JsonAccess
  import opened CanonicalGate
  import opened Evaluator
  import opened EvidenceOrder
  import opened AdmissionDocument
  import opened AdmissionReceipt

  /** Every text of the document is `x` and every stamp `t`. */
  function Since<T>(t: T): Lifecycle<T> {
    Lifecycle(t, None, None, None)
  }

  function TypedWarrant<T>(x: string, t: T): Warrant<T> {
    Warrant(x, x, x, [x], Since(t), ActiveWarrant)
  }

  function TypedEvidence<T>(x: string, t: T): Evidence<T> {
    Evidence(x, x, x, x, x, [x], Since(t), TypedWarrant(x, t))
  }

  function TypedRegistration<T>(x: string, t: T): Registration<T> {
    Registration(x, x, x, Available, Fresh, true, x, [x], Since(t))
  }

  function TypedInput<T>(x: string, t: T): Input<T> {
    Input([Anchor(x, x)], TypedRegistration(x, t), [TypedEvidence(x, t)], x, x)
  }

  // ---------------------------------------------------------------- its JSON

  function ScopeArray(x: string): Json {
    JArray([JString(x)])
  }

  function WarrantJson(x: string, t: string): Json {
    JObject(map[
      "source_version" := JString(x), "source_digest" := JString(x), "jurisdiction" := JString(x),
      "applicability_scope" := ScopeArray(x), "effective_from" := JString(t), "effective_until" := JNull,
      "revoked_at" := JNull, "status" := JString("ACTIVE")])
  }

  function UnsignedEvidence(x: string, t: string): map<string, Json> {
    map[
      "evidence_id" := JString(x), "source_id" := JString(x), "source_version" := JString(x),
      "source_digest" := JString(x), "authority_basis_ref" := JString(x), "jurisdiction" := JString(x),
      "applicability_scope" := ScopeArray(x), "effective_from" := JString(t), "effective_until" := JNull,
      "superseded_at" := JNull, "revoked_at" := JNull, "admission_warrant" := WarrantJson(x, t)]
  }

  function EvidenceJson(x: string, t: string, digest: string): Json {
    JObject(UnsignedEvidence(x, t)["evidence_digest" := JString(digest)])
  }

  function RegistrationJson(x: string, t: string): Json {
    JObject(map[
      "source_id" := JString(x), "source_version" := JString(x), "source_digest" := JString(x),
      "registered" := JBool(true), "jurisdiction" := JString(x), "applicability_scope" := ScopeArray(x),
      "effective_from" := JString(t), "effective_until" := JNull, "superseded_at" := JNull, "revoked_at" := JNull,
      "registry_observation" := ObservationJson()])
  }

  function ObservationJson(): Json {
    JObject(map["availability" := JString("AVAILABLE"), "freshness" := JString("FRESH")])
  }

  function AnchorJson(x: string): Json {
    JObject(map["source_id" := JString(x), "content_hash" := JString(x)])
  }

  function ScopeJson(x: string): Json {
    JObject(map["jurisdiction" := JString(x), "applicability" := JString(x)])
  }

  function CandidateJson(x: string): Json {
    JObject(map[
      "unit_id" := JString(x),
      "source_anchors" := JArray([AnchorJson(x)])])
  }

  function RulesetJson(): Json {
    JObject(map["ruleset_id" := JString(RULESET_ID), "ruleset_digest" := JString(RULESET_DIGEST)])
  }

  function DocumentJson(x: string, t: string, digest: string): Json {
    JObject(map[
      "candidate" := CandidateJson(x), "source_registration" := RegistrationJson(x, t),
      "authority_evidence" := JArray([EvidenceJson(x, t, digest)]), "evaluation_time" := JString(t),
      "evaluation_scope" := ScopeJson(x),
      "ruleset" := RulesetJson()])
  }

  /** The digest that recomputes. */
  function Signature(x: string, t: string, sha256: Bytes -> string): string {
    DigestOf(JObject(UnsignedEvidence(x, t)), sha256)
  }

  // ---------------------------------------------------------------- reading it back

  lemma ReadOne<A>(v: Json, read: Json -> Option<A>, a: A)
    requires read(v) == Some(a)
    ensures ReadAll([v], read) == Some([a])
  {
    ReadAllOf([v], read, [a]);
  }

  lemma WarrantReads(x: string, t: string)
    ensures ReadWarrant(WarrantJson(x, t)) == Some(TypedWarrant(x, t))
  {
    ReadOne(JString(x), ReadText, x);
  }

  /** The fields of a record that a record and a registration share. */
  ghost predicate Described(v: Json, x: string, t: string) {
    && TextField(v, "source_id") == Some(x) && TextField(v, "source_version") == Some(x)
    && TextField(v, "source_digest") == Some(x) && TextField(v, "jurisdiction") == Some(x)
    && Field(v, "applicability_scope") == Some(ScopeArray(x)) && ReadLifecycle(v) == Some(Since(t))
  }

  lemma EvidenceTexts(x: string, t: string, digest: string)
    ensures var v := EvidenceJson(x, t, digest);
            && TextField(v, "source_id") == Some(x) && TextField(v, "source_version") == Some(x)
            && TextField(v, "source_digest") == Some(x) && TextField(v, "jurisdiction") == Some(x)
            && Field(v, "applicability_scope") == Some(ScopeArray(x))
  {
  }

  lemma EvidenceRest(x: string, t: string, digest: string)
    ensures var v := EvidenceJson(x, t, digest);
            && TextField(v, "authority_basis_ref") == Some(x) && TextField(v, "effective_from") == Some(t)
            && NullableField(v, "effective_until") == Some(None) && NullableField(v, "superseded_at") == Some(None)
            && NullableField(v, "revoked_at") == Some(None) && Field(v, "admission_warrant") == Some(WarrantJson(x, t))
  {
  }

  lemma ScopeReads(v: Json, x: string)
    requires Field(v, "applicability_scope") == Some(ScopeArray(x))
    ensures TextsField(v, "applicability_scope") == Some([x])
  {
    ReadOne(JString(x), ReadText, x);
  }

  lemma EvidenceAssembled(v: Json, x: string, t: string)
    requires Described(v, x, t) && TextField(v, "authority_basis_ref") == Some(x)
    requires Field(v, "admission_warrant") == Some(WarrantJson(x, t))
    ensures ReadEvidence(v) == Some(TypedEvidence(x, t))
  {
    ScopeReads(v, x);
    WarrantReads(x, t);
  }

  lemma EvidenceReads(x: string, t: string, digest: string)
    ensures ReadEvidence(EvidenceJson(x, t, digest)) == Some(TypedEvidence(x, t))
  {
    EvidenceTexts(x, t, digest);
    EvidenceRest(x, t, digest);
    EvidenceAssembled(EvidenceJson(x, t, digest), x, t);
  }

  lemma RecordReads(x: string, t: string, digest: string)
    ensures ReadRecord(EvidenceJson(x, t, digest)) == Some(Record(x, digest, JObject(UnsignedEvidence(x, t))))
  {
    assert "evidence_digest" !in UnsignedEvidence(x, t);
    RemoveUpdated(UnsignedEvidence(x, t), "evidence_digest", JString(digest));
  }

  lemma RegistrationTexts(x: string, t: string)
    ensures var v := RegistrationJson(x, t);
            && TextField(v, "source_id") == Some(x) && TextField(v, "source_version") == Some(x)
            && TextField(v, "source_digest") == Some(x) && TextField(v, "jurisdiction") == Some(x)
            && Field(v, "applicability_scope") == Some(ScopeArray(x))
  {
  }

  lemma RegistrationRest(x: string, t: string)
    ensures var v := RegistrationJson(x, t);
            && TextField(v, "effective_from") == Some(t) && NullableField(v, "effective_until") == Some(None)
            && NullableField(v, "superseded_at") == Some(None) && NullableField(v, "revoked_at") == Some(None)
            && Field(v, "registered") == Some(JBool(true))
            && Field(v, "registry_observation") == Some(ObservationJson())
  {
  }

  lemma ObservationReads()
    ensures TextField(ObservationJson(), "availability") == Some("AVAILABLE")
    ensures TextField(ObservationJson(), "freshness") == Some("FRESH")
  {
  }

  lemma RegistrationAssembled(v: Json, x: string, t: string)
    requires Described(v, x, t) && Field(v, "registered") == Some(JBool(true))
    requires Field(v, "registry_observation") == Some(ObservationJson())
    ensures ReadRegistration(v) == Some(TypedRegistration(x, t))
  {
    ScopeReads(v, x);
    ObservationReads();
  }

  lemma RegistrationReads(x: string, t: string)
    ensures ReadRegistration(RegistrationJson(x, t)) == Some(TypedRegistration(x, t))
  {
    RegistrationTexts(x, t);
    RegistrationRest(x, t);
    RegistrationAssembled(RegistrationJson(x, t), x, t);
  }

  lemma DocumentFields(x: string, t: string, digest: string)
    ensures var v := DocumentJson(x, t, digest);
            && Field(v, "candidate") == Some(CandidateJson(x))
            && Field(v, "source_registration") == Some(RegistrationJson(x, t))
            && ArrayField(v, "authority_evidence") == Some([EvidenceJson(x, t, digest)])
            && TextField(v, "evaluation_time") == Some(t) && Field(v, "evaluation_scope") == Some(ScopeJson(x))
            && Field(v, "ruleset") == Some(RulesetJson())
  {
  }

  lemma ScopeFields(x: string)
    ensures TextField(ScopeJson(x), "jurisdiction") == Some(x) && TextField(ScopeJson(x), "applicability") == Some(x)
  {
  }

  lemma RulesetFields()
    ensures TextField(RulesetJson(), "ruleset_id") == Some(RULESET_ID)
    ensures TextField(RulesetJson(), "ruleset_digest") == Some(RULESET_DIGEST)
  {
  }

  lemma CandidateReads(x: string)
    ensures TextField(CandidateJson(x), "unit_id") == Some(x)
    ensures ArrayField(CandidateJson(x), "source_anchors") == Some([AnchorJson(x)])
    ensures ReadAll([AnchorJson(x)], ReadAnchor) == Some([Anchor(x, x)])
  {
    ReadOne(AnchorJson(x), ReadAnchor, Anchor(x, x));
  }

  function Typed(x: string, t: string, digest: string): Document {
    Document(TypedInput(x, t), t, RULESET_ID, RULESET_DIGEST, [Record(x, digest, JObject(UnsignedEvidence(x, t)))])
  }

  lemma DocumentReads(x: string, t: string, digest: string)
    ensures ReadDocument(DocumentJson(x, t, digest)) == Some(Typed(x, t, digest))
  {
    DocumentFields(x, t, digest);
    CandidateReads(x);
    RegistrationReads(x, t);
    EvidenceReads(x, t, digest);
    ReadOne(EvidenceJson(x, t, digest), ReadEvidence, TypedEvidence(x, t));
    RecordReads(x, t, digest);
    ReadOne(EvidenceJson(x, t, digest), ReadRecord, Record(x, digest, JObject(UnsignedEvidence(x, t))));
    ScopeFields(x);
    RulesetFields();
  }

  // ---------------------------------------------------------------- its receipt

  lemma TypedIsAdmitted(x: string, at: int)
    ensures State(TypedInput(x, at), at) == Admitted
  {
    var i, e := TypedInput(x, at), TypedEvidence(x, at);
    assert e in Relevant(i) && Relevant(i) == {e};
    assert e in VersionBound(i) && e in Bound(i) && x in [x];
    assert Scoped(i) == {e};
    assert Operative(e, i, at) && OperativeBases(i, at) == {x};
  }

  lemma ParseOne(e: Evidence<string>, p: Evidence<int>, instant: Clock)
    requires ParseEvidence(e, instant) == Some(p)
    ensures ParseEvery([e], instant) == Some([p])
  {
    var one, none: seq<Evidence<int>> := [e], [];
    assert one[1..] == [] && one[0] == e && [p] + none == [p];
    assert ParseEvery(one[1..], instant) == Some(none);
  }

  lemma TypedParses(x: string, t: string, at: int, instant: Clock)
    requires instant(t) == Some(at)
    ensures ParseInput(TypedInput(x, t), instant) == Some(TypedInput(x, at))
  {
    assert ParseLifecycle(Since(t), instant) == Some(Since(at));
    assert ParseEvidence(TypedEvidence(x, t), instant) == Some(TypedEvidence(x, at));
    ParseOne(TypedEvidence(x, t), TypedEvidence(x, at), instant);
  }

  lemma TypedEvaluates(x: string, t: string, at: int, digest: string, instant: Clock)
    requires instant(t) == Some(at)
    ensures EvaluateDocument(Typed(x, t, digest), instant) == Ok(Admitted)
  {
    TypedParses(x, t, at, instant);
    DocumentRefinesState(Typed(x, t, digest), TypedInput(x, at), at, instant);
    TypedIsAdmitted(x, at);
  }

  /** Receipts exist: this document is issued one that says ADMITTED, whatever the digest function. */
  lemma AdmittedReceiptExists(x: string, t: string, at: int, sha256: Bytes -> string, instant: Clock)
    requires instant(t) == Some(at)
    ensures var r := EvaluateBytes(CanonicalBytes(DocumentJson(x, t, Signature(x, t, sha256))), sha256, instant);
            r.Ok? && r.value.projection.admissionState == Admitted
  {
    var document := DocumentJson(x, t, Signature(x, t, sha256));
    var d := Typed(x, t, Signature(x, t, sha256));
    DocumentReads(x, t, Signature(x, t, sha256));
    GateExact(CanonicalBytes(document), document);
    AcceptedExactly(d.records, sha256);
    TypedEvaluates(x, t, at, Signature(x, t, sha256), instant);
  }
}
