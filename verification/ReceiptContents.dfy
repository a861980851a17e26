/** What the JSON of an issued receipt says, member by member, in terms of the payload it was issued for. */
module ReceiptContents {
  import opened Outcomes
  import opened Utf8
  import opened Json
  import opened JsonAccess
  import opened CanonicalGate
  import opened Evaluator
  import opened Precedence
  import opened AdmissionFields
  import opened AdmissionDocument
  import opened AdmissionSpelling
  import opened AdmissionReceipt

  /** The state and the reason code of each entry of the frozen mapping, in order of precedence. */
  const MAPPING: seq<(string, string)> := [
    ("CANDIDATE_INPUT_INVALID", "OIC-ADM-1001"), ("AUTHORITY_REGISTRY_UNAVAILABLE", "OIC-ADM-1012"),
    ("AUTHORITY_EVIDENCE_STALE", "OIC-ADM-1013"), ("SOURCE_NOT_REGISTERED", "OIC-ADM-1002"),
    ("SOURCE_VERSION_MISMATCH", "OIC-ADM-1003"), ("SOURCE_DIGEST_MISMATCH", "OIC-ADM-1004"),
    ("MISSING_AUTHORITY_EVIDENCE", "OIC-ADM-1005"), ("OUT_OF_SCOPE", "OIC-ADM-1010"),
    ("NOT_YET_EFFECTIVE", "OIC-ADM-1006"), ("EXPIRED", "OIC-ADM-1007"), ("SUPERSEDED", "OIC-ADM-1008"),
    ("REVOKED", "OIC-ADM-1009"), ("CONFLICTING_AUTHORITY", "OIC-ADM-1011"),
    ("ADMISSION_NOT_ESTABLISHED", "OIC-ADM-1099"), ("ADMITTED", "OIC-ADM-0000")]

  lemma MappingEntry(s: AdmissionState)
    ensures 1 <= Rank(s) <= 15 && MAPPING[Rank(s) - 1] == (StateName(s), ReasonCode(s))
  {
  }

  /** The mapping's entry at the place of a state. */
  function EntryOf(s: AdmissionState): (string, string) {
    MappingEntry(s);
    MAPPING[Rank(s) - 1]
  }

  /** The receipt's texts are those of the document. */
  ghost predicate TextsRepeat(v: Json, document: Json) {
    var candidate, registration := Field(document, "candidate"), Field(document, "source_registration");
    && candidate.Some? && registration.Some?
    && TextField(v, "candidate_unit_id") == TextField(candidate.value, "unit_id")
    && TextField(v, "source_id") == TextField(registration.value, "source_id")
    && TextField(v, "source_version") == TextField(registration.value, "source_version")
    && TextField(v, "source_digest") == TextField(registration.value, "source_digest")
    && TextField(v, "evaluation_time") == TextField(document, "evaluation_time")
    && Field(v, "evaluation_scope") == Field(document, "evaluation_scope")
  }

  /** The receipt lists the identifier and the digest of each piece of evidence, in the document's order. */
  ghost predicate EvidenceListed(v: Json, document: Json) {
    var evidence := ArrayField(document, "authority_evidence");
    var refs, digests := ArrayField(v, "authority_evidence_refs"), ArrayField(v, "authority_evidence_digests");
    && evidence.Some? && refs.Some? && digests.Some? && |refs.value| == |evidence.value| == |digests.value|
    && forall k | 0 <= k < |evidence.value| ::
         && Field(evidence.value[k], "evidence_id") == Some(refs.value[k])
         && Field(evidence.value[k], "evidence_digest") == Some(digests.value[k])
  }

  /** The receipt's digests are those of the payload and of the two parts of the document. */
  ghost predicate DigestsBind(v: Json, document: Json, payload: Bytes, sha256: Bytes -> string) {
    var candidate, evidence := Field(document, "candidate"), Field(document, "authority_evidence");
    && candidate.Some? && evidence.Some?
    && TextField(v, "input_digest") == Some("sha256:" + sha256(payload))
    && TextField(v, "candidate_projection_digest") == Some("sha256:" + sha256(Encode(Print(candidate.value))))
    && TextField(v, "evidence_digest") == Some("sha256:" + sha256(Encode(Print(evidence.value))))
  }

  /** The receipt names itself by the digest of its other members, and names its evaluator and ruleset. */
  ghost predicate Named(v: Json, sha256: Bytes -> string) {
    && TextField(v, "evaluator_id") == Some(EVALUATOR_ID)
    && TextField(v, "evaluator_version") == Some(EVALUATOR_VERSION)
    && TextField(v, "ruleset_id") == Some(RULESET_ID) && TextField(v, "ruleset_digest") == Some(RULESET_DIGEST)
    && v.JObject?
    && var unnamed := JObject(v.fields - {"admission_receipt_id"});
       TextField(v, "admission_receipt_id") == Some("admrec-" + ("sha256:" + sha256(Encode(Print(unnamed)))))
  }

  lemma TextMembers(r: Receipt)
    ensures var v, p := ToJson(r), r.projection;
            && TextField(v, "candidate_unit_id") == Some(p.candidateUnitId)
            && TextField(v, "source_id") == Some(p.sourceId) && TextField(v, "source_version") == Some(p.sourceVersion)
            && TextField(v, "source_digest") == Some(p.sourceDigest)
            && TextField(v, "evaluation_time") == Some(p.evaluationTime)
            && Field(v, "evaluation_scope") == Some(p.evaluationScope)
  {
  }

  lemma DigestMembers(r: Receipt)
    ensures var v, p := ToJson(r), r.projection;
            && TextField(v, "input_digest") == Some(p.inputDigest)
            && TextField(v, "candidate_projection_digest") == Some(p.candidateProjectionDigest)
            && TextField(v, "evidence_digest") == Some(p.evidenceDigest)
            && Field(v, "authority_evidence_refs") == Some(TextArray(p.authorityEvidenceRefs))
            && Field(v, "authority_evidence_digests") == Some(TextArray(p.authorityEvidenceDigests))
  {
  }

  lemma NameMembers(r: Receipt)
    ensures var v, p := ToJson(r), r.projection;
            && TextField(v, "admission_receipt_id") == Some(r.admissionReceiptId)
            && TextField(v, "admission_state") == Some(StateName(p.admissionState))
            && TextField(v, "reason_code") == Some(p.reasonCode)
            && TextField(v, "evaluator_id") == Some(p.evaluatorId)
            && TextField(v, "evaluator_version") == Some(p.evaluatorVersion)
            && TextField(v, "ruleset_id") == Some(p.rulesetId)
            && TextField(v, "ruleset_digest") == Some(p.rulesetDigest)
  {
  }

  lemma CitedInJson(r: Receipt, document: Json, sha256: Bytes -> string)
    requires Describes(r.projection, document, sha256)
    ensures EvidenceListed(ToJson(r), document)
  {
    DigestMembers(r);
    var evidence := ArrayField(document, "authority_evidence").value;
    forall k | 0 <= k < |evidence|
      ensures Field(evidence[k], "evidence_id") == Some(JString(r.projection.authorityEvidenceRefs[k]))
      ensures Field(evidence[k], "evidence_digest") == Some(JString(r.projection.authorityEvidenceDigests[k]))
    {
      assert TextField(evidence[k], "evidence_id") == Some(r.projection.authorityEvidenceRefs[k]);
    }
  }

  lemma DescribedInJson(r: Receipt, document: Json, payload: Bytes, sha256: Bytes -> string)
    requires Describes(r.projection, document, sha256) && r.projection.inputDigest == "sha256:" + sha256(payload)
    ensures TextsRepeat(ToJson(r), document) && DigestsBind(ToJson(r), document, payload, sha256)
  {
    TextMembers(r);
    DigestMembers(r);
  }

  lemma EvaluatorNamed(document: Json, d: Document, payload: Bytes, state: AdmissionState, sha256: Bytes -> string)
    requires ReadDocument(document) == Some(d)
    ensures var p := BuildReceipt(document, d, payload, state, sha256).projection;
            && p.evaluatorId == EVALUATOR_ID && p.evaluatorVersion == EVALUATOR_VERSION
            && p.rulesetId == RULESET_ID && p.rulesetDigest == RULESET_DIGEST
  {
  }

  /** Every member of an issued receipt but its state: what it repeats, lists, digests and names. */
  lemma ReceiptSays(payload: Bytes, sha256: Bytes -> string, instant: Clock) returns (document: Json)
    requires EvaluateBytes(payload, sha256, instant).Ok?
    ensures Accept(payload) == Ok(document)
    ensures var v := ToJson(EvaluateBytes(payload, sha256, instant).value);
            && TextsRepeat(v, document) && EvidenceListed(v, document)
            && DigestsBind(v, document, payload, sha256) && Named(v, sha256)
  {
    var d, state;
    document, d, state := Steps(payload, sha256, instant);
    var r := EvaluateBytes(payload, sha256, instant).value;
    BuiltDescribes(document, d, payload, state, sha256);
    Built(document, d, payload, state, sha256);
    DescribedInJson(r, document, payload, sha256);
    CitedInJson(r, document, sha256);
    ReceiptIdRecomputes(payload, sha256, instant);
    EvaluatorNamed(document, d, payload, state, sha256);
    NameMembers(r);
  }

  lemma OneFirst(j: Input<int>, at: int, s: AdmissionState, t: AdmissionState)
    requires IsFirst(s, Requirements(j, at)) && IsFirst(t, Requirements(j, at))
    ensures s == t
  {
    StateFromFields(j, at, s);
    StateFromFields(j, at, t);
  }

  /** The JSON of the receipt carries the name and the reason code of the mapping's entry for `s`. */
  ghost predicate Shows(r: Receipt, s: AdmissionState) {
    && TextField(ToJson(r), "admission_state") == Some(EntryOf(s).0)
    && TextField(ToJson(r), "reason_code") == Some(EntryOf(s).1)
  }

  lemma StateMembers(r: Receipt, s: AdmissionState)
    requires r.projection.admissionState == s && r.projection.reasonCode == ReasonCode(s)
    ensures Shows(r, s)
  {
    MappingEntry(s);
    NameMembers(r);
  }

  /**
   The state and reason code in the JSON of an issued receipt are those of the mapping's entry for the first state
   that the fields spelled by the document require.
   */
  lemma StateInJson(payload: Bytes, document: Json, d: Document, j: Input<int>, at: int, s: AdmissionState,
                    sha256: Bytes -> string, instant: Clock, total: Clock)
    requires EvaluateBytes(payload, sha256, instant).Ok? && Accept(payload) == Ok(document) && Spells(document, d)
    requires forall stamp | StampReached(stamp, d) :: instant(stamp) == total(stamp)
    requires StampedInput(d.input, j, total) && total(d.evaluationTime) == Some(at)
    requires IsFirst(s, Requirements(j, at))
    ensures Shows(EvaluateBytes(payload, sha256, instant).value, s)
  {
    var r := EvaluateBytes(payload, sha256, instant).value;
    IssuedState(payload, document, d, j, at, sha256, instant, total);
    OneFirst(j, at, s, r.projection.admissionState);
    StateMembers(r, s);
  }
}
