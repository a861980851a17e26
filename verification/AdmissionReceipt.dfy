/**
 The public entry point on bytes, and the receipt it issues: an immutable projection of the accepted
 input whose identifier is a digest of its own canonical form.
 */
module AdmissionReceipt {
  import opened Outcomes
  import opened Text
  import opened Utf8
  import opened Digests
  import opened Json
  import opened JsonAccess
  import opened CanonicalGate
  import opened Evaluator
  import opened EvidenceOrder
  import opened AdmissionDocument
  import opened AdmissionSpelling
  import opened AdmissionFields
  import opened Precedence

  const RULESET_ID := "OIC-ADMISSION-BOUNDARY-001"
  const RULESET_DIGEST := "sha256:794ff36a702964ef32b3bc7b68cc9286e06665e20744975db5f4ef692e685b6c"
  const EVALUATOR_ID := "oic-admission-reference-evaluator"
  const EVALUATOR_VERSION := "0.1-preregistered"
  const RECEIPT_ID_PREFIX := "admrec-"
  const RECEIPT_ID_KEY := "admission_receipt_id"
  const INPUT_DIGEST_KEY := "input_digest"

  function StateName(s: AdmissionState): string {
    match s
    case CandidateInputInvalid => "CANDIDATE_INPUT_INVALID"
    case AuthorityRegistryUnavailable => "AUTHORITY_REGISTRY_UNAVAILABLE"
    case AuthorityEvidenceStale => "AUTHORITY_EVIDENCE_STALE"
    case SourceNotRegistered => "SOURCE_NOT_REGISTERED"
    case SourceVersionMismatch => "SOURCE_VERSION_MISMATCH"
    case SourceDigestMismatch => "SOURCE_DIGEST_MISMATCH"
    case MissingAuthorityEvidence => "MISSING_AUTHORITY_EVIDENCE"
    case OutOfScope => "OUT_OF_SCOPE"
    case NotYetEffective => "NOT_YET_EFFECTIVE"
    case Expired => "EXPIRED"
    case Superseded => "SUPERSEDED"
    case Revoked => "REVOKED"
    case ConflictingAuthority => "CONFLICTING_AUTHORITY"
    case AdmissionNotEstablished => "ADMISSION_NOT_ESTABLISHED"
    case Admitted => "ADMITTED"
  }

  /** The reason code the frozen ruleset pairs with each state. */
  function ReasonCode(s: AdmissionState): string {
    match s
    case CandidateInputInvalid => "OIC-ADM-1001"
    case AuthorityRegistryUnavailable => "OIC-ADM-1012"
    case AuthorityEvidenceStale => "OIC-ADM-1013"
    case SourceNotRegistered => "OIC-ADM-1002"
    case SourceVersionMismatch => "OIC-ADM-1003"
    case SourceDigestMismatch => "OIC-ADM-1004"
    case MissingAuthorityEvidence => "OIC-ADM-1005"
    case OutOfScope => "OIC-ADM-1010"
    case NotYetEffective => "OIC-ADM-1006"
    case Expired => "OIC-ADM-1007"
    case Superseded => "OIC-ADM-1008"
    case Revoked => "OIC-ADM-1009"
    case ConflictingAuthority => "OIC-ADM-1011"
    case AdmissionNotEstablished => "OIC-ADM-1099"
    case Admitted => "OIC-ADM-0000"
  }

  /** The receipt's fields other than its identifier. */
  datatype Projection = Projection(
    candidateUnitId: string, candidateProjectionDigest: string,
    sourceId: string, sourceVersion: string, sourceDigest: string,
    authorityEvidenceRefs: seq<string>, authorityEvidenceDigests: seq<string>,
    evaluationTime: string, evaluationScope: Json,
    admissionState: AdmissionState, reasonCode: string,
    evaluatorId: string, evaluatorVersion: string, rulesetId: string, rulesetDigest: string,
    inputDigest: string, evidenceDigest: string)

  datatype Receipt = Receipt(admissionReceiptId: string, projection: Projection)

  function ProjectionFields(p: Projection): map<string, Json> {
    map[
      "candidate_unit_id" := JString(p.candidateUnitId),
      "candidate_projection_digest" := JString(p.candidateProjectionDigest),
      "source_id" := JString(p.sourceId),
      "source_version" := JString(p.sourceVersion),
      "source_digest" := JString(p.sourceDigest),
      "authority_evidence_refs" := TextArray(p.authorityEvidenceRefs),
      "authority_evidence_digests" := TextArray(p.authorityEvidenceDigests),
      "evaluation_time" := JString(p.evaluationTime),
      "evaluation_scope" := p.evaluationScope,
      "admission_state" := JString(StateName(p.admissionState)),
      "reason_code" := JString(p.reasonCode),
      "evaluator_id" := JString(p.evaluatorId),
      "evaluator_version" := JString(p.evaluatorVersion),
      "ruleset_id" := JString(p.rulesetId),
      "ruleset_digest" := JString(p.rulesetDigest),
      "evidence_digest" := JString(p.evidenceDigest),
      "input_digest" := JString(p.inputDigest)
    ]
  }

  /** `AdmissionReceipt.to_json` */
  function ToJson(r: Receipt): Json {
    JObject(ProjectionFields(r.projection)[RECEIPT_ID_KEY := JString(r.admissionReceiptId)])
  }

  function ReceiptId(projection: Json, sha256: Bytes -> string): string {
    RECEIPT_ID_PREFIX + DigestOf(projection, sha256)
  }

  /** `_build_receipt` */
  function BuildReceipt(document: Json, d: Document, payload: Bytes, state: AdmissionState, sha256: Bytes -> string)
    : Receipt
    requires ReadDocument(document) == Some(d)
  {
    var candidate := Field(document, "candidate").value;
    var evidence := ArrayField(document, "authority_evidence").value;
    var p := Projection(
      TextField(candidate, "unit_id").value, DigestOf(candidate, sha256),
      d.input.registration.sourceId, d.input.registration.sourceVersion, d.input.registration.sourceDigest,
      seq(|d.records|, k requires 0 <= k < |d.records| => d.records[k].id),
      seq(|d.records|, k requires 0 <= k < |d.records| => d.records[k].digest),
      d.evaluationTime, Field(document, "evaluation_scope").value,
      state, ReasonCode(state), EVALUATOR_ID, EVALUATOR_VERSION, RULESET_ID, RULESET_DIGEST,
      DIGEST_PREFIX + sha256(payload), DigestOf(JArray(evidence), sha256));
    Receipt(ReceiptId(JObject(ProjectionFields(p)), sha256), p)
  }

  /** `evaluate_admission_bytes`: the boundary checks in order, then the evaluation, then the receipt. */
  function EvaluateBytes(payload: Bytes, sha256: Bytes -> string, instant: Clock): Result<Receipt, BoundaryError> {
    var document :- Accept(payload);
    match ReadDocument(document)
    case None => Err(SchemaError)
    case Some(d) =>
      if !FrozenRuleset(d) then Err(RulesetError) else
      var _ :- Integrity(d.records, sha256);
      var state :- EvaluateDocument(d, instant);
      Ok(BuildReceipt(document, d, payload, state, sha256))
  }

  lemma DigestInjective(v: Json, w: Json, sha256: Bytes -> string)
    requires Injective(sha256) && DigestOf(v, sha256) == DigestOf(w, sha256)
    ensures v == w
  {
    PrefixInjective(DIGEST_PREFIX, sha256(CanonicalBytes(v)), sha256(CanonicalBytes(w)));
    CanonicalInjective(v, w);
  }

  predicate FrozenRuleset(d: Document) {
    d.rulesetId == RULESET_ID && d.rulesetDigest == RULESET_DIGEST
  }

  /** Every step of an accepted evaluation succeeded. */
  lemma Steps(payload: Bytes, sha256: Bytes -> string, instant: Clock)
    returns (document: Json, d: Document, state: AdmissionState)
    requires EvaluateBytes(payload, sha256, instant).Ok?
    ensures Accept(payload) == Ok(document) && ReadDocument(document) == Some(d) && FrozenRuleset(d)
    ensures Integrity(d.records, sha256).Ok? && EvaluateDocument(d, instant) == Ok(state)
    ensures EvaluateBytes(payload, sha256, instant) == Ok(BuildReceipt(document, d, payload, state, sha256))
  {
    document := Accept(payload).value;
    d := ReadDocument(document).value;
    state := EvaluateDocument(d, instant).value;
  }

  lemma Built(document: Json, d: Document, payload: Bytes, state: AdmissionState, sha256: Bytes -> string)
    requires ReadDocument(document) == Some(d)
    ensures var r := BuildReceipt(document, d, payload, state, sha256);
            && r.admissionReceiptId == ReceiptId(JObject(ProjectionFields(r.projection)), sha256)
            && r.projection.inputDigest == DIGEST_PREFIX + sha256(payload)
            && r.projection.admissionState == state && r.projection.reasonCode == ReasonCode(state)
  {
  }

  lemma IdKeyIsNew(p: Projection)
    ensures RECEIPT_ID_KEY !in ProjectionFields(p)
  {
  }

  lemma RemovingTheId(r: Receipt)
    ensures ToJson(r).fields - {RECEIPT_ID_KEY} == ProjectionFields(r.projection)
  {
    IdKeyIsNew(r.projection);
    RemoveUpdated(ProjectionFields(r.projection), RECEIPT_ID_KEY, JString(r.admissionReceiptId));
  }

  lemma RemoveUpdated(fields: map<string, Json>, key: string, v: Json)
    requires key !in fields
    ensures fields[key := v] - {key} == fields
  {
  }

  /** The identifier recomputes from the receipt's own JSON without its identifier field. */
  lemma ReceiptIdRecomputes(payload: Bytes, sha256: Bytes -> string, instant: Clock)
    requires EvaluateBytes(payload, sha256, instant).Ok?
    ensures var r := EvaluateBytes(payload, sha256, instant).value;
            var unnamed := JObject(ToJson(r).fields - {"admission_receipt_id"});
            r.admissionReceiptId == "admrec-" + ("sha256:" + sha256(Encode(Print(unnamed))))
  {
    var document, d, state := Steps(payload, sha256, instant);
    Built(document, d, payload, state, sha256);
    RemovingTheId(BuildReceipt(document, d, payload, state, sha256));
  }

  lemma FieldsBindInput(p: Projection, q: Projection)
    requires ProjectionFields(p) == ProjectionFields(q)
    ensures p.inputDigest == q.inputDigest
  {
    assert ProjectionFields(p)[INPUT_DIGEST_KEY] == JString(p.inputDigest);
    assert ProjectionFields(q)[INPUT_DIGEST_KEY] == JString(q.inputDigest);
  }

  lemma IdBindsInput(p: Projection, q: Projection, a: Bytes, b: Bytes, sha256: Bytes -> string)
    requires Injective(sha256)
    requires ReceiptId(JObject(ProjectionFields(p)), sha256) == ReceiptId(JObject(ProjectionFields(q)), sha256)
    requires p.inputDigest == DIGEST_PREFIX + sha256(a) && q.inputDigest == DIGEST_PREFIX + sha256(b)
    ensures a == b
  {
    var v, w := JObject(ProjectionFields(p)), JObject(ProjectionFields(q));
    PrefixInjective(RECEIPT_ID_PREFIX, DigestOf(v, sha256), DigestOf(w, sha256));
    DigestInjective(v, w, sha256);
    FieldsBindInput(p, q);
    PrefixInjective(DIGEST_PREFIX, sha256(a), sha256(b));
  }

  /**
   Receipt binding: with a collision-free digest, two receipts with one identifier were issued for
   byte-identical inputs and agree in every field.
   */
  lemma ReceiptBinding(a: Bytes, b: Bytes, sha256: Bytes -> string, instant: Clock)
    requires Injective(sha256)
    requires EvaluateBytes(a, sha256, instant).Ok? && EvaluateBytes(b, sha256, instant).Ok?
    requires EvaluateBytes(a, sha256, instant).value.admissionReceiptId
               == EvaluateBytes(b, sha256, instant).value.admissionReceiptId
    ensures a == b && EvaluateBytes(a, sha256, instant) == EvaluateBytes(b, sha256, instant)
  {
    var v, d, s := Steps(a, sha256, instant);
    var w, e, t := Steps(b, sha256, instant);
    Built(v, d, a, s, sha256);
    Built(w, e, b, t, sha256);
    var p, q := BuildReceipt(v, d, a, s, sha256).projection, BuildReceipt(w, e, b, t, sha256).projection;
    IdBindsInput(p, q, a, b, sha256);
  }

  lemma ReceiptJsonBindsId(r: Receipt, s: Receipt)
    requires CanonicalBytes(ToJson(r)) == CanonicalBytes(ToJson(s))
    ensures r.admissionReceiptId == s.admissionReceiptId
  {
    CanonicalInjective(ToJson(r), ToJson(s));
    assert ToJson(r).fields[RECEIPT_ID_KEY] == JString(r.admissionReceiptId);
    assert ToJson(s).fields[RECEIPT_ID_KEY] == JString(s.admissionReceiptId);
  }

  /** Receipts are as informative as their bytes: equal canonical receipt bytes come from one input. */
  lemma ReceiptBytesBinding(a: Bytes, b: Bytes, sha256: Bytes -> string, instant: Clock)
    requires Injective(sha256)
    requires EvaluateBytes(a, sha256, instant).Ok? && EvaluateBytes(b, sha256, instant).Ok?
    requires CanonicalBytes(ToJson(EvaluateBytes(a, sha256, instant).value))
               == CanonicalBytes(ToJson(EvaluateBytes(b, sha256, instant).value))
    ensures a == b
  {
    ReceiptJsonBindsId(EvaluateBytes(a, sha256, instant).value, EvaluateBytes(b, sha256, instant).value);
    ReceiptBinding(a, b, sha256, instant);
  }

  /** `sha256:` and the digest of a value's canonical text. */
  ghost predicate IsDigestOf(digest: string, v: Json, sha256: Bytes -> string) {
    digest == "sha256:" + sha256(Encode(Print(v)))
  }

  /**
   What an issued receipt vouches for: the canonical bytes of one object that spells `d` key by key, the frozen
   ruleset, ascending evidence whose digests recompute, and an input digest that is that of the bytes and of the
   document.
   */
  lemma IssuedReceipt(payload: Bytes, sha256: Bytes -> string, instant: Clock) returns (document: Json, d: Document)
    requires EvaluateBytes(payload, sha256, instant).Ok?
    ensures document.JObject? && payload == Encode(Print(document)) && Spells(document, d)
    ensures FrozenRuleset(d)
    ensures forall j, k | 0 <= j < k < |d.records| :: Less(d.records[j].id, d.records[k].id)
    ensures forall k | 0 <= k < |d.records| :: IsDigestOf(d.records[k].digest, d.records[k].body, sha256)
    ensures var p := EvaluateBytes(payload, sha256, instant).value.projection;
            && p.inputDigest == "sha256:" + sha256(payload) && IsDigestOf(p.inputDigest, document, sha256)
            && EvaluateDocument(d, instant) == Ok(p.admissionState)
            && p.reasonCode == ReasonCode(p.admissionState)
  {
    var state;
    document, d, state := Steps(payload, sha256, instant);
    GateExact(payload, document);
    ReadExactly(document, d);
    AcceptedExactly(d.records, sha256);
    forall k | 0 <= k < |d.records| ensures IsDigestOf(d.records[k].digest, d.records[k].body, sha256) {
      assert Recomputes(d.records[k], sha256);
    }
    Built(document, d, payload, state, sha256);
  }

  /** The document's bytes and content pass every boundary check, and every stamp the check order reaches parses. */
  ghost predicate Issuable(payload: Bytes, document: Json, d: Document, sha256: Bytes -> string, instant: Clock) {
    && document.JObject? && payload == Encode(Print(document)) && Spells(document, d) && FrozenRuleset(d)
    && (forall j, k | 0 <= j < k < |d.records| :: Less(d.records[j].id, d.records[k].id))
    && (forall k | 0 <= k < |d.records| :: IsDigestOf(d.records[k].digest, d.records[k].body, sha256))
    && forall s | StampReached(s, d) :: instant(s).Some?
  }

  lemma IssuedIsIssuable(payload: Bytes, sha256: Bytes -> string, instant: Clock)
    requires EvaluateBytes(payload, sha256, instant).Ok?
    ensures exists document, d :: Issuable(payload, document, d, sha256, instant)
  {
    var document, d := IssuedReceipt(payload, sha256, instant);
    StampsParse(d, instant);
    assert Issuable(payload, document, d, sha256, instant);
  }

  lemma StampsParse(d: Document, instant: Clock)
    ensures EvaluateDocument(d, instant).Ok? <==> forall s | StampReached(s, d) :: instant(s).Some?
  {
    TimestampErrorExactly(d, instant);
  }

  /** A receipt is issued for exactly the payloads that spell such a document. */
  lemma IssuedExactly(payload: Bytes, sha256: Bytes -> string, instant: Clock)
    ensures EvaluateBytes(payload, sha256, instant).Ok? <==>
              exists document, d :: Issuable(payload, document, d, sha256, instant)
  {
    if EvaluateBytes(payload, sha256, instant).Ok? {
      IssuedIsIssuable(payload, sha256, instant);
    }
    if document, d :| Issuable(payload, document, d, sha256, instant) {
      IssuableIsIssued(payload, document, d, sha256, instant);
    }
  }

  lemma IssuableIsIssued(payload: Bytes, document: Json, d: Document, sha256: Bytes -> string, instant: Clock)
    requires Issuable(payload, document, d, sha256, instant)
    ensures EvaluateBytes(payload, sha256, instant).Ok?
  {
    GateExact(payload, document);
    ReadExactly(document, d);
    forall k | 0 <= k < |d.records| ensures Recomputes(d.records[k], sha256) {
      assert IsDigestOf(d.records[k].digest, d.records[k].body, sha256);
    }
    AcceptedExactly(d.records, sha256);
    StampsParse(d, instant);
  }

  /**
   The state of an issued receipt follows from the keys of its JSON: it is the first state that the fields the
   document spells require, with the instants its stamps are read as. Stamps the check order does not reach may
   stand for any instant.
   */
  lemma IssuedState(payload: Bytes, document: Json, d: Document, j: Input<int>, at: int, sha256: Bytes -> string,
                    instant: Clock, total: Clock)
    requires EvaluateBytes(payload, sha256, instant).Ok? && Accept(payload) == Ok(document) && Spells(document, d)
    requires forall s | StampReached(s, d) :: instant(s) == total(s)
    requires StampedInput(d.input, j, total) && total(d.evaluationTime) == Some(at)
    ensures var p := EvaluateBytes(payload, sha256, instant).value.projection;
            IsFirst(p.admissionState, Requirements(j, at)) && p.reasonCode == ReasonCode(p.admissionState)
  {
    var v, e, state := Steps(payload, sha256, instant);
    Built(v, e, payload, state, sha256);
    ReadExactly(document, d);
    ParsesExactly(d.input, j, total);
    ReachedStampsDecide(d, j, at, instant, total);
    StateFromFields(j, at, State(j, at));
  }

  // ---------------------------------------------------------------- refusals

  /** The place of each refusal in the order of the boundary checks. */
  function CheckRank(e: BoundaryError): nat {
    match e
    case EncodingError => 1
    case JsonError => 2
    case CanonicalFormError => 3
    case SchemaError => 4
    case RulesetError => 5
    case EvidenceOrderError => 6
    case EvidenceIntegrityError => 7
    case TimestampError => 8
  }

  /** The bytes are UTF-8 text without a mark that reads as this object, without repeated keys. */
  ghost predicate ReadsAs(payload: Bytes, document: Json) {
    && !(BYTE_ORDER_MARK <= payload) && Decode(payload).Some? && document.JObject?
    && Loads(Decode(payload).value, true) == Some(document)
  }

  /** Up to `k` the records are in order and recompute. */
  ghost predicate FirstBad(records: seq<Record>, k: nat, sha256: Bytes -> string) {
    && k < |records| && !(InPlace(records, k) && IsDigestOf(records[k].digest, records[k].body, sha256))
    && forall j | 0 <= j < k :: InPlace(records, j) && IsDigestOf(records[j].digest, records[j].body, sha256)
  }

  /** No earlier record has this identifier, and the one before comes first by identifier, then by digest. */
  ghost predicate InPlace(records: seq<Record>, k: nat)
    requires k < |records|
  {
    && (forall j | 0 <= j < k :: records[j].id != records[k].id)
    && (k > 0 ==> Less(records[k - 1].id, records[k].id)
                  || (records[k - 1].id == records[k].id && Less(records[k - 1].digest, records[k].digest)))
  }

  /** What each refusal says of the bytes, on its own. */
  ghost predicate Refuses(e: BoundaryError, payload: Bytes, sha256: Bytes -> string, instant: Clock) {
    match e
    case EncodingError => BYTE_ORDER_MARK <= payload || Decode(payload).None?
    case JsonError => !exists v :: ReadsAs(payload, v)
    case CanonicalFormError => exists v :: ReadsAs(payload, v) && payload != Encode(Print(v))
    case SchemaError => exists v :: ReadsAs(payload, v) && forall d :: !Spells(v, d)
    case RulesetError =>
      exists v, d :: ReadsAs(payload, v) && Spells(v, d)
                     && (d.rulesetId != RULESET_ID || d.rulesetDigest != RULESET_DIGEST)
    case EvidenceOrderError =>
      exists v, d, k :: ReadsAs(payload, v) && Spells(v, d) && FirstBad(d.records, k, sha256) && !InPlace(d.records, k)
    case EvidenceIntegrityError =>
      exists v, d, k :: ReadsAs(payload, v) && Spells(v, d) && FirstBad(d.records, k, sha256) && InPlace(d.records, k)
    case TimestampError =>
      exists v, d, s :: ReadsAs(payload, v) && Spells(v, d) && StampReached(s, d) && instant(s).None?
  }

  ghost function Refusals(payload: Bytes, sha256: Bytes -> string, instant: Clock): BoundaryError -> bool {
    e => Refuses(e, payload, sha256, instant)
  }

  ghost predicate IsFirstRefusal(e: BoundaryError, g: BoundaryError -> bool) {
    g(e) && forall f: BoundaryError | CheckRank(f) < CheckRank(e) :: !g(f)
  }

  lemma FirstRefusalUnique(e: BoundaryError, f: BoundaryError, g: BoundaryError -> bool)
    requires IsFirstRefusal(e, g) && IsFirstRefusal(f, g)
    ensures e == f
  {
    assert CheckRank(e) == CheckRank(f);
  }

  lemma SchemaIsFourth(g: BoundaryError -> bool)
    requires !g(EncodingError) && !g(JsonError) && !g(CanonicalFormError) && g(SchemaError)
    ensures IsFirstRefusal(SchemaError, g)
  {
  }

  /** The last four checks, once the first four pass. */
  lemma RankedRefusal(g: BoundaryError -> bool)
    requires !g(EncodingError) && !g(JsonError) && !g(CanonicalFormError) && !g(SchemaError)
    ensures g(RulesetError) ==> IsFirstRefusal(RulesetError, g)
    ensures !g(RulesetError) && g(EvidenceOrderError) ==> IsFirstRefusal(EvidenceOrderError, g)
    ensures !g(RulesetError) && !g(EvidenceOrderError) && g(EvidenceIntegrityError) ==>
              IsFirstRefusal(EvidenceIntegrityError, g)
    ensures !g(RulesetError) && !g(EvidenceOrderError) && !g(EvidenceIntegrityError) && g(TimestampError) ==>
              IsFirstRefusal(TimestampError, g)
    ensures !g(RulesetError) && !g(EvidenceOrderError) && !g(EvidenceIntegrityError) && !g(TimestampError) ==>
              forall e :: !g(e)
  {
    forall e | !g(RulesetError) && !g(EvidenceOrderError) && !g(EvidenceIntegrityError) && !g(TimestampError)
      ensures !g(e)
    {
      match e
      case EncodingError =>
      case _ =>
    }
  }

  lemma ReadsAsOne(payload: Bytes, v: Json, w: Json)
    requires ReadsAs(payload, v) && ReadsAs(payload, w)
    ensures v == w
  {
  }

  lemma SpellsOne(v: Json, d: Document, e: Document)
    requires Spells(v, d) && Spells(v, e)
    ensures d == e
  {
    ReadExactly(v, d);
    ReadExactly(v, e);
  }

  lemma FirstBadOne(records: seq<Record>, j: nat, k: nat, sha256: Bytes -> string)
    requires FirstBad(records, j, sha256) && FirstBad(records, k, sha256)
    ensures j == k
  {
  }

  lemma CheckedAt(records: seq<Record>, k: nat, sha256: Bytes -> string)
    requires k < |records|
    ensures OrderedAt(records, k) <==> InPlace(records, k)
    ensures Recomputes(records[k], sha256) <==> IsDigestOf(records[k].digest, records[k].body, sha256)
  {
  }

  lemma {:induction false} IntegrityRefusal(records: seq<Record>, k: nat, sha256: Bytes -> string)
    requires k <= |records|
    requires forall j | 0 <= j < k :: InPlace(records, j) && IsDigestOf(records[j].digest, records[j].body, sha256)
    ensures IntegrityFrom(records, k, sha256).Err? ==>
              exists m :: FirstBad(records, m, sha256)
                && IntegrityFrom(records, k, sha256)
                     == Err(if InPlace(records, m) then EvidenceIntegrityError else EvidenceOrderError)
    ensures IntegrityFrom(records, k, sha256).Ok? ==> forall m :: !FirstBad(records, m, sha256)
    decreases |records| - k
  {
    if k < |records| {
      CheckedAt(records, k, sha256);
      if InPlace(records, k) && IsDigestOf(records[k].digest, records[k].body, sha256) {
        IntegrityRefusal(records, k + 1, sha256);
      } else {
        assert FirstBad(records, k, sha256);
      }
    }
  }

  lemma CanonicalRefusal(payload: Bytes, v: Json, sha256: Bytes -> string, instant: Clock)
    requires ReadsAs(payload, v)
    ensures Refuses(CanonicalFormError, payload, sha256, instant) <==> payload != Encode(Print(v))
  {
    forall w | ReadsAs(payload, w) ensures w == v {
      ReadsAsOne(payload, v, w);
    }
  }

  lemma SchemaRefusal(payload: Bytes, v: Json, sha256: Bytes -> string, instant: Clock)
    requires ReadsAs(payload, v)
    ensures Refuses(SchemaError, payload, sha256, instant) <==> forall d :: !Spells(v, d)
  {
    forall w | ReadsAs(payload, w) ensures w == v {
      ReadsAsOne(payload, v, w);
    }
  }

  lemma NotUnread(payload: Bytes, v: Json, sha256: Bytes -> string, instant: Clock)
    requires ReadsAs(payload, v)
    ensures !Refuses(EncodingError, payload, sha256, instant) && !Refuses(JsonError, payload, sha256, instant)
  {
  }

  lemma ReadRefusals(payload: Bytes, v: Json, sha256: Bytes -> string, instant: Clock)
    requires ReadsAs(payload, v)
    ensures var g := Refusals(payload, sha256, instant);
            && !g(EncodingError) && !g(JsonError)
            && (g(CanonicalFormError) <==> payload != Encode(Print(v)))
            && (g(SchemaError) <==> forall d :: !Spells(v, d))
  {
    NotUnread(payload, v, sha256, instant);
    CanonicalRefusal(payload, v, sha256, instant);
    SchemaRefusal(payload, v, sha256, instant);
  }

  /** The payload spells this document and no other. */
  ghost predicate OnlySpells(payload: Bytes, v: Json, d: Document) {
    && ReadsAs(payload, v) && Spells(v, d)
    && forall w, e | ReadsAs(payload, w) && Spells(w, e) :: w == v && e == d
  }

  lemma SpellsOnly(payload: Bytes, v: Json, d: Document)
    requires ReadsAs(payload, v) && Spells(v, d)
    ensures OnlySpells(payload, v, d)
  {
    forall w, e | ReadsAs(payload, w) && Spells(w, e) ensures w == v && e == d {
      SpellsOne(v, d, e);
    }
  }

  lemma RulesetRefusal(payload: Bytes, v: Json, d: Document, sha256: Bytes -> string, instant: Clock)
    requires OnlySpells(payload, v, d)
    ensures Refuses(RulesetError, payload, sha256, instant) <==> !FrozenRuleset(d)
  {
  }

  lemma OrderRefusal(payload: Bytes, v: Json, d: Document, sha256: Bytes -> string, instant: Clock)
    requires OnlySpells(payload, v, d)
    ensures Refuses(EvidenceOrderError, payload, sha256, instant) <==>
              exists k :: FirstBad(d.records, k, sha256) && !InPlace(d.records, k)
  {
  }

  lemma DigestRefusal(payload: Bytes, v: Json, d: Document, sha256: Bytes -> string, instant: Clock)
    requires OnlySpells(payload, v, d)
    ensures Refuses(EvidenceIntegrityError, payload, sha256, instant) <==>
              exists k :: FirstBad(d.records, k, sha256) && InPlace(d.records, k)
  {
  }

  lemma StampRefusal(payload: Bytes, v: Json, d: Document, sha256: Bytes -> string, instant: Clock)
    requires OnlySpells(payload, v, d)
    ensures Refuses(TimestampError, payload, sha256, instant) <==> exists s :: StampReached(s, d) && instant(s).None?
  {
  }

  lemma IntegrityRefusals(records: seq<Record>, sha256: Bytes -> string)
    ensures Integrity(records, sha256) == Err(EvidenceOrderError) <==>
              exists k :: FirstBad(records, k, sha256) && !InPlace(records, k)
    ensures Integrity(records, sha256) == Err(EvidenceIntegrityError) <==>
              exists k :: FirstBad(records, k, sha256) && InPlace(records, k)
    ensures Integrity(records, sha256).Err? ==>
              Integrity(records, sha256).error in {EvidenceOrderError, EvidenceIntegrityError}
  {
    IntegrityRefusal(records, 0, sha256);
    forall j, k | FirstBad(records, j, sha256) && FirstBad(records, k, sha256) ensures j == k {
      FirstBadOne(records, j, k, sha256);
    }
  }

  /** What the last four checks find, given what each of them reads. */
  lemma DocumentRefusals(payload: Bytes, v: Json, d: Document, sha256: Bytes -> string, instant: Clock)
    requires ReadsAs(payload, v) && Spells(v, d)
    ensures var g := Refusals(payload, sha256, instant);
            && (g(RulesetError) <==> !FrozenRuleset(d))
            && (g(EvidenceOrderError) <==> Integrity(d.records, sha256) == Err(EvidenceOrderError))
            && (g(EvidenceIntegrityError) <==> Integrity(d.records, sha256) == Err(EvidenceIntegrityError))
            && (g(TimestampError) <==> EvaluateDocument(d, instant).Err?)
  {
    SpellsOnly(payload, v, d);
    RulesetRefusal(payload, v, d, sha256, instant);
    OrderRefusal(payload, v, d, sha256, instant);
    DigestRefusal(payload, v, d, sha256, instant);
    StampRefusal(payload, v, d, sha256, instant);
    IntegrityRefusals(d.records, sha256);
    TimestampErrorExactly(d, instant);
  }

  /** What `EvaluateBytes` comes to once the bytes spell a document with the canonical text. */
  lemma DocumentOutcome(payload: Bytes, v: Json, d: Document, sha256: Bytes -> string, instant: Clock)
    requires Accept(payload) == Ok(v) && ReadDocument(v) == Some(d)
    ensures var r := EvaluateBytes(payload, sha256, instant);
            if !FrozenRuleset(d) then r == Err(RulesetError)
            else if Integrity(d.records, sha256).Err? then r == Err(Integrity(d.records, sha256).error)
            else if EvaluateDocument(d, instant).Err? then r == Err(TimestampError)
            else r.Ok?
  {
    TimestampErrorExactly(d, instant);
  }

  lemma SpelledOutcome(payload: Bytes, v: Json, d: Document, sha256: Bytes -> string, instant: Clock)
    requires Accept(payload) == Ok(v) && ReadDocument(v) == Some(d)
    requires ReadsAs(payload, v) && payload == Encode(Print(v))
    ensures OutcomeIs(EvaluateBytes(payload, sha256, instant), Refusals(payload, sha256, instant))
  {
    ReadExactly(v, d);
    ReadRefusals(payload, v, sha256, instant);
    DocumentRefusals(payload, v, d, sha256, instant);
    DocumentOutcome(payload, v, d, sha256, instant);
    IntegrityRefusals(d.records, sha256);
    RankedRefusal(Refusals(payload, sha256, instant));
  }

  ghost predicate OutcomeIs(r: Result<Receipt, BoundaryError>, g: BoundaryError -> bool) {
    match r
    case Ok(_) => forall e :: !g(e)
    case Err(e) => IsFirstRefusal(e, g)
  }

  lemma DecodeRefusals(payload: Bytes)
    ensures var r := DecodeInput(payload);
            && (r.Ok? ==> ReadsAs(payload, r.value))
            && (r == Err(EncodingError) <==> BYTE_ORDER_MARK <= payload || Decode(payload).None?)
            && (r.Err? ==> (r.error == EncodingError || r.error == JsonError) && forall v :: !ReadsAs(payload, v))
  {
  }

  lemma UnspelledOutcome(payload: Bytes, v: Json, sha256: Bytes -> string, instant: Clock)
    requires Accept(payload) == Ok(v) && ReadsAs(payload, v) && payload == Encode(Print(v)) && ReadDocument(v).None?
    ensures EvaluateBytes(payload, sha256, instant) == Err(SchemaError)
    ensures IsFirstRefusal(SchemaError, Refusals(payload, sha256, instant))
  {
    ReadRefusals(payload, v, sha256, instant);
    NothingSpelled(v);
    SchemaIsFourth(Refusals(payload, sha256, instant));
  }

  lemma NothingSpelled(v: Json)
    requires ReadDocument(v).None?
    ensures forall d :: !Spells(v, d)
  {
    forall d ensures !Spells(v, d) {
      ReadExactly(v, d);
    }
  }

  lemma UnreadOutcome(payload: Bytes, sha256: Bytes -> string, instant: Clock)
    requires Accept(payload).Err?
    ensures OutcomeIs(EvaluateBytes(payload, sha256, instant), Refusals(payload, sha256, instant))
  {
    DecodeRefusals(payload);
    if DecodeInput(payload).Ok? {
      ReadRefusals(payload, DecodeInput(payload).value, sha256, instant);
    }
  }

  lemma Outcome(payload: Bytes, sha256: Bytes -> string, instant: Clock)
    ensures OutcomeIs(EvaluateBytes(payload, sha256, instant), Refusals(payload, sha256, instant))
  {
    if Accept(payload).Ok? {
      var v := Accept(payload).value;
      DecodeRefusals(payload);
      if ReadDocument(v).Some? {
        SpelledOutcome(payload, v, ReadDocument(v).value, sha256, instant);
      } else {
        UnspelledOutcome(payload, v, sha256, instant);
      }
    } else {
      UnreadOutcome(payload, sha256, instant);
    }
  }

  /** A payload is refused for exactly the first of the eight reasons, in the order of the checks, that applies. */
  lemma FirstRefusalIsGiven(payload: Bytes, e: BoundaryError, sha256: Bytes -> string, instant: Clock)
    ensures EvaluateBytes(payload, sha256, instant) == Err(e) <==>
              IsFirstRefusal(e, Refusals(payload, sha256, instant))
  {
    var g := Refusals(payload, sha256, instant);
    var r := EvaluateBytes(payload, sha256, instant);
    Outcome(payload, sha256, instant);
    if IsFirstRefusal(e, g) && r.Err? {
      FirstRefusalUnique(e, r.error, g);
    }
  }

  // ---------------------------------------------------------------- what each field repeats

  /** Every input-derived field repeats, or digests, the field of the input it is named after. */
  ghost predicate Describes(p: Projection, document: Json, sha256: Bytes -> string) {
    var candidate, registration := Field(document, "candidate"), Field(document, "source_registration");
    var evidence := ArrayField(document, "authority_evidence");
    && candidate.Some? && registration.Some? && evidence.Some?
    && TextField(candidate.value, "unit_id") == Some(p.candidateUnitId)
    && IsDigestOf(p.candidateProjectionDigest, candidate.value, sha256)
    && TextField(registration.value, "source_id") == Some(p.sourceId)
    && TextField(registration.value, "source_version") == Some(p.sourceVersion)
    && TextField(registration.value, "source_digest") == Some(p.sourceDigest)
    && TextField(document, "evaluation_time") == Some(p.evaluationTime)
    && Field(document, "evaluation_scope") == Some(p.evaluationScope)
    && IsDigestOf(p.evidenceDigest, JArray(evidence.value), sha256)
    && Cites(p, evidence.value)
  }

  ghost predicate Cites(p: Projection, evidence: seq<Json>) {
    && |p.authorityEvidenceRefs| == |evidence| == |p.authorityEvidenceDigests|
    && forall k | 0 <= k < |evidence| ::
         && TextField(evidence[k], "evidence_id") == Some(p.authorityEvidenceRefs[k])
         && TextField(evidence[k], "evidence_digest") == Some(p.authorityEvidenceDigests[k])
  }

  lemma RegistrationRead(v: Json, r: Registration<string>)
    requires ReadRegistration(v) == Some(r)
    ensures TextField(v, "source_id") == Some(r.sourceId) && TextField(v, "source_version") == Some(r.sourceVersion)
    ensures TextField(v, "source_digest") == Some(r.sourceDigest)
  {
  }

  lemma RecordRead(v: Json, r: Record)
    requires ReadRecord(v) == Some(r)
    ensures TextField(v, "evidence_id") == Some(r.id) && TextField(v, "evidence_digest") == Some(r.digest)
  {
  }

  /** The parts of the document that the receipt repeats, as they were read. */
  lemma PartsRead(v: Json, d: Document)
    requires ReadDocument(v) == Some(d)
    ensures ReadAnchors(v).Some? && ReadSource(v) == Some(d.input.registration) && ReadScope(v).Some?
    ensures ReadAuthority(v).Some? && ReadAuthority(v).value.1 == d.records
    ensures TextField(v, "evaluation_time") == Some(d.evaluationTime)
  {
  }

  lemma RecordsCited(evidence: seq<Json>, records: seq<Record>, p: Projection)
    requires ReadAll(evidence, ReadRecord) == Some(records)
    requires p.authorityEvidenceRefs == seq(|records|, k requires 0 <= k < |records| => records[k].id)
    requires p.authorityEvidenceDigests == seq(|records|, k requires 0 <= k < |records| => records[k].digest)
    ensures Cites(p, evidence)
  {
    forall k | 0 <= k < |evidence|
      ensures TextField(evidence[k], "evidence_id") == Some(p.authorityEvidenceRefs[k])
      ensures TextField(evidence[k], "evidence_digest") == Some(p.authorityEvidenceDigests[k])
    {
      RecordRead(evidence[k], records[k]);
    }
  }

  lemma BuiltDescribes(document: Json, d: Document, payload: Bytes, state: AdmissionState, sha256: Bytes -> string)
    requires ReadDocument(document) == Some(d)
    ensures Describes(BuildReceipt(document, d, payload, state, sha256).projection, document, sha256)
  {
    PartsRead(document, d);
    RegistrationRead(Field(document, "source_registration").value, d.input.registration);
    RecordsCited(ArrayField(document, "authority_evidence").value, d.records,
                 BuildReceipt(document, d, payload, state, sha256).projection);
  }

  /** An issued receipt describes the document its bytes spell, and cites its evidence in ascending order. */
  lemma ReceiptDescribesInput(payload: Bytes, sha256: Bytes -> string, instant: Clock) returns (document: Json)
    requires EvaluateBytes(payload, sha256, instant).Ok?
    ensures payload == CanonicalBytes(document)
    ensures var p := EvaluateBytes(payload, sha256, instant).value.projection;
            Describes(p, document, sha256) && StrictlyAscending(p.authorityEvidenceRefs)
  {
    var d, state;
    document, d, state := Steps(payload, sha256, instant);
    GateExact(payload, document);
    AcceptedExactly(d.records, sha256);
    BuiltDescribes(document, d, payload, state, sha256);
  }

  /** A reason code names exactly one state. */
  lemma ReasonCodeInjective(s: AdmissionState, t: AdmissionState)
    requires ReasonCode(s) == ReasonCode(t)
    ensures s == t
  {
    assert ReasonCode(s)[8..] == ReasonCode(t)[8..];
    assert ReasonCode(s)[8] == ReasonCode(t)[8] && ReasonCode(s)[10] == ReasonCode(t)[10]
           && ReasonCode(s)[11] == ReasonCode(t)[11];
  }
}
