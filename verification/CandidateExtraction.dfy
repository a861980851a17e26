/** The candidate boundary: what a provider response must be to become candidate material, and its identity. */
module CandidateExtraction {
  import opened Outcomes
  import opened Text
  import opened Utf8
  import opened Digests
  import opened Json
  import opened JsonAccess
  import opened CanonicalGate
  import opened Grounding

  datatype CandidateError =
    | BlankSource
    | NotJson
    | RootNotObject
    | UnexpectedRootKeys
    | NoCandidatesArray
    | CandidateNotObject
    | AuthorityFields
    | SemanticRoleFields
    | UnexpectedFields
    | MissingFields
    | InvalidUnitType
    | SpanNotText
    | BlankSpan
    | SpanNotLiteral

  const ALLOWED_KEYS: set<string> := {"candidate_span", "unit_type"}

  const SEMANTIC_ROLE_KEYS: set<string> :=
    {"actor", "action", "object", "target", "conditions", "exceptions", "evidence_requirements"}

  const AUTHORITY_KEYS: set<string> := {
    "unit_id", "interpretation_state", "epistemic_state", "lifecycle_state", "confidence", "source_anchors",
    "admission", "admitted", "authority", "authorization", "enforceability", "legal_effect", "verdict", "allow",
    "deny", "runtime_outcome", "institutional_ir", "institutional_ir_state"}

  const UNIT_TYPES: set<string> := {
    "definition", "mandate", "delegation", "obligation", "prohibition", "permission", "power", "condition",
    "exception", "evidence_duty", "review_duty", "escalation", "remedy", "temporal_trigger", "discretion", "advisory"}

  /** The fragment a response is checked against. */
  datatype Source = Source(text: string, anchor: Json, fold: Fold)

  /** `check_source_grounding` */
  function CheckGrounding(item: Json, source: Source): (r: Result<string, CandidateError>)
    ensures r.Ok? ==>
              && Field(item, "candidate_span") == Some(JString(r.value))
              && !Blank(r.value) && Grounded(r.value, source.text, source.fold)
    ensures forall span | Field(item, "candidate_span") == Some(JString(span)) ::
              && (r == Err(BlankSpan) <==> Blank(span))
              && (r == Err(SpanNotLiteral) <==> !Blank(span) && !Grounded(span, source.text, source.fold))
              && r != Err(SpanNotText)
  {
    match Field(item, "candidate_span")
    case Some(JString(span)) =>
      if Blank(span) then Err(BlankSpan)
      else if !Grounded(span, source.text, source.fold) then Err(SpanNotLiteral)
      else Ok(span)
    case _ => Err(SpanNotText)
  }

  function Semantic(span: string, unitType: string): Json {
    JObject(map["candidate_span" := JString(span), "unit_type" := JString(unitType)])
  }

  /** `_candidate_id`, without its truncation to 24 characters. */
  function CandidateId(span: string, unitType: string, anchor: Json, sha256: Bytes -> string): string {
    "cnu-" + sha256(CanonicalBytes(Identity(span, unitType, anchor)))
  }

  function Identity(span: string, unitType: string, anchor: Json): Json {
    JObject(map[
      "candidate_schema" := JString("003"), "semantic" := Semantic(span, unitType), "source_anchor" := anchor])
  }

  function Candidate(span: string, unitType: string, anchor: Json, sha256: Bytes -> string): Json {
    JObject(map[
      "candidate_span" := JString(span),
      "unit_type" := JString(unitType),
      "interpretation_state" := JString("extracted"),
      "epistemic_state" := JString("uncertain"),
      "source_anchors" := JArray([anchor]),
      "unit_id" := JString(CandidateId(span, unitType, anchor, sha256))])
  }

  /** `_normalize_candidate` */
  function Normalize(item: Json, source: Source, sha256: Bytes -> string): Result<Json, CandidateError>
    requires item.JObject?
  {
    var keys := item.fields.Keys;
    if keys * AUTHORITY_KEYS != {} then Err(AuthorityFields)
    else if keys * SEMANTIC_ROLE_KEYS != {} then Err(SemanticRoleFields)
    else if keys - ALLOWED_KEYS != {} then Err(UnexpectedFields)
    else if keys != ALLOWED_KEYS then Err(MissingFields)
    else
      var unitType := item.fields["unit_type"];
      if !unitType.JString? || unitType.s !in UNIT_TYPES then Err(InvalidUnitType) else
      var span :- CheckGrounding(item, source);
      Ok(Candidate(span, unitType.s, source.anchor, sha256))
  }

  /** All items, in order; the first refusal refuses the response. */
  function NormalizeAll(items: seq<Json>, source: Source, sha256: Bytes -> string): Result<seq<Json>, CandidateError>
    requires forall i | i in items :: i.JObject?
  {
    if items == [] then Ok([]) else
    assert items[0] in items;
    var first :- Normalize(items[0], source, sha256);
    var rest :- NormalizeAll(items[1..], source, sha256);
    Ok([first] + rest)
  }

  /** `_parse_provider_json` and `_candidate_items` */
  function CandidateItems(content: string): (r: Result<seq<Json>, CandidateError>)
    ensures r.Ok? ==> forall i | i in r.value :: i.JObject?
    ensures r.Ok? ==> Loads(content, false) == Some(JObject(map["candidates" := JArray(r.value)]))
  {
    match Loads(content, false)
    case None => Err(NotJson)
    case Some(root) =>
      if !root.JObject? then Err(RootNotObject)
      else if root.fields.Keys - {"candidates"} != {} then Err(UnexpectedRootKeys)
      else match Field(root, "candidates")
        case Some(JArray(items)) =>
          if exists i | i in items :: !i.JObject? then Err(CandidateNotObject) else
          assert forall k | k in root.fields :: k == "candidates" by {
            assert forall k | k in root.fields.Keys && k != "candidates" :: k in root.fields.Keys - {"candidates"};
          }
          assert root.fields == map["candidates" := JArray(items)];
          Ok(items)
        case _ => Err(NoCandidatesArray)
  }

  /** `propose_candidate_units`, on a response. */
  function Propose(content: string, source: Source, sha256: Bytes -> string): Result<seq<Json>, CandidateError> {
    if Blank(source.text) then Err(BlankSource) else
    var items :- CandidateItems(content);
    NormalizeAll(items, source, sha256)
  }

  // ---------------------------------------------------------------- what acceptance means

  /** Exactly the two proposed fields, a known type, and a nonblank span grounded in the source. */
  ghost predicate Acceptable(item: Json, source: Source) {
    exists span, unitType ::
      && item == Semantic(span, unitType) && unitType in UNIT_TYPES
      && !Blank(span) && Grounded(span, source.text, source.fold)
  }

  lemma AllowedKeysOnly()
    ensures ALLOWED_KEYS * AUTHORITY_KEYS == {} && ALLOWED_KEYS * SEMANTIC_ROLE_KEYS == {}
  {
    assert "candidate_span" !in AUTHORITY_KEYS && "candidate_span" !in SEMANTIC_ROLE_KEYS;
    assert "unit_type" !in AUTHORITY_KEYS && "unit_type" !in SEMANTIC_ROLE_KEYS;
  }

  /** The first four refusals together come to one thing: exactly the two allowed keys. */
  lemma NormalizeExact(item: Json, source: Source, sha256: Bytes -> string)
    requires item.JObject?
    ensures Normalize(item, source, sha256).Ok? <==> Acceptable(item, source)
    ensures forall span, unitType | Normalize(item, source, sha256).Ok? && item == Semantic(span, unitType) ::
              Normalize(item, source, sha256) == Ok(Candidate(span, unitType, source.anchor, sha256))
  {
    AllowedKeysOnly();
    if Normalize(item, source, sha256).Ok? {
      var span, unitType := item.fields["candidate_span"].s, item.fields["unit_type"].s;
      assert item.fields == Semantic(span, unitType).fields;
    }
    forall span, unitType | item == Semantic(span, unitType)
      ensures item.fields.Keys == ALLOWED_KEYS
    {
    }
  }

  lemma {:induction false} AcceptedAll(items: seq<Json>, source: Source, sha256: Bytes -> string)
    requires forall i | i in items :: i.JObject?
    ensures NormalizeAll(items, source, sha256).Ok? <==> forall i | i in items :: Acceptable(i, source)
  {
    if items != [] {
      assert items == [items[0]] + items[1..];
      NormalizeExact(items[0], source, sha256);
      AcceptedAll(items[1..], source, sha256);
    }
  }

  lemma NormalizedIsKept(item: Json, source: Source, sha256: Bytes -> string)
    requires item.JObject? && Normalize(item, source, sha256).Ok?
    ensures Kept(item, Normalize(item, source, sha256).value, source, sha256)
  {
    NormalizeExact(item, source, sha256);
  }

  lemma {:induction false} NormalizedInPlace(items: seq<Json>, source: Source, sha256: Bytes -> string, k: nat)
    requires (forall i | i in items :: i.JObject?) && NormalizeAll(items, source, sha256).Ok? && k < |items|
    ensures |NormalizeAll(items, source, sha256).value| == |items| && items[k] in items
    ensures Normalize(items[k], source, sha256) == Ok(NormalizeAll(items, source, sha256).value[k])
  {
    assert items[0] in items && forall i | i in items[1..] :: i in items;
    if |items| > 1 {
      NormalizedInPlace(items[1..], source, sha256, if k > 0 then k - 1 else 0);
    }
  }

  /**
   A response is accepted exactly when every candidate is acceptable; and then each candidate keeps its
   place, its span and its type, character for character.
   */
  lemma NormalizeAllExact(items: seq<Json>, source: Source, sha256: Bytes -> string)
    requires forall i | i in items :: i.JObject?
    ensures NormalizeAll(items, source, sha256).Ok? <==> forall i | i in items :: Acceptable(i, source)
    ensures NormalizeAll(items, source, sha256).Ok? ==>
              && |NormalizeAll(items, source, sha256).value| == |items|
              && forall k | 0 <= k < |items| ::
                   Kept(items[k], NormalizeAll(items, source, sha256).value[k], source, sha256)
  {
    AcceptedAll(items, source, sha256);
    if NormalizeAll(items, source, sha256).Ok? {
      var all := NormalizeAll(items, source, sha256).value;
      assert items == [] ==> all == [];
      forall k | 0 <= k < |items| ensures |all| == |items| && Kept(items[k], all[k], source, sha256) {
        NormalizedInPlace(items, source, sha256, k);
        NormalizedIsKept(items[k], source, sha256);
      }
    }
  }

  ghost predicate Kept(item: Json, candidate: Json, source: Source, sha256: Bytes -> string) {
    exists span, unitType ::
      item == Semantic(span, unitType) && candidate == Candidate(span, unitType, source.anchor, sha256)
  }

  /** Candidate identity: equal identifiers mean equal spans, types and anchors, wherever they were proposed. */
  lemma UnitIdBinds(span1: string, type1: string, anchor1: Json, span2: string, type2: string, anchor2: Json,
                    sha256: Bytes -> string)
    requires Injective(sha256)
    requires CandidateId(span1, type1, anchor1, sha256) == CandidateId(span2, type2, anchor2, sha256)
    ensures span1 == span2 && type1 == type2 && anchor1 == anchor2
  {
    var v, w := Identity(span1, type1, anchor1), Identity(span2, type2, anchor2);
    PrefixInjective("cnu-", sha256(CanonicalBytes(v)), sha256(CanonicalBytes(w)));
    CanonicalInjective(v, w);
    assert v.fields["semantic"] == w.fields["semantic"] && v.fields["source_anchor"] == w.fields["source_anchor"];
    assert Semantic(span1, type1).fields["candidate_span"] == Semantic(span2, type2).fields["candidate_span"];
    assert Semantic(span1, type1).fields["unit_type"] == Semantic(span2, type2).fields["unit_type"];
  }

  /** Any nonblank literal span of the source passes the boundary, whatever the case folding. */
  lemma LiteralSpanAccepted(a: string, span: string, b: string, unitType: string, anchor: Json, fold: Fold)
    requires !Blank(span) && unitType in UNIT_TYPES
    ensures Acceptable(Semantic(span, unitType), Source(a + span + b, anchor, fold))
  {
    LiteralIsGrounded(a, span, b, fold);
  }

  /** An accepted item, with its span a literal piece of the source up to whitespace and case. */
  ghost predicate LiterallyAcceptable(item: Json, source: Source) {
    exists span, unitType ::
      && item == Semantic(span, unitType) && unitType in UNIT_TYPES
      && !Blank(span) && Literal(span, source.text, source.fold)
  }

  /** The grounding check accepts every nonblank literal span, and no other text if no character expands. */
  lemma CheckGroundingExact(item: Json, source: Source)
    requires FoldsLikeUnicode(source.fold)
    ensures forall span | Field(item, "candidate_span") == Some(JString(span)) ::
              !Blank(span) && Literal(span, source.text, source.fold) ==> CheckGrounding(item, source) == Ok(span)
    ensures FoldsSingly(source.text, source.fold) && CheckGrounding(item, source).Ok? ==>
              exists span :: Field(item, "candidate_span") == Some(JString(span)) && !Blank(span)
                             && Literal(span, source.text, source.fold)
  {
    forall span | Field(item, "candidate_span") == Some(JString(span)) && Literal(span, source.text, source.fold)
      ensures Grounded(span, source.text, source.fold)
    {
      LiteralThenGrounded(span, source.text, source.fold);
    }
    if FoldsSingly(source.text, source.fold) && CheckGrounding(item, source).Ok? {
      GroundedThenLiteral(CheckGrounding(item, source).value, source.text, source.fold);
    }
  }

  /** Where no character of the fragment expands, what is accepted is literal source material. */
  lemma AcceptedIsLiteral(item: Json, source: Source)
    requires FoldsLikeUnicode(source.fold) && FoldsSingly(source.text, source.fold)
    ensures Acceptable(item, source) <==> LiterallyAcceptable(item, source)
  {
    if Acceptable(item, source) {
      var span, unitType :| item == Semantic(span, unitType) && unitType in UNIT_TYPES
        && !Blank(span) && Grounded(span, source.text, source.fold);
      GroundedIsLiteral(span, source.text, source.fold);
    }
    if LiterallyAcceptable(item, source) {
      var span, unitType :| item == Semantic(span, unitType) && unitType in UNIT_TYPES
        && !Blank(span) && Literal(span, source.text, source.fold);
      GroundedIsLiteral(span, source.text, source.fold);
    }
  }

  // ---------------------------------------------------------------- what a candidate says

  /** The members of what a candidate's identifier digests. */
  ghost predicate Identifies(v: Json, span: string, unitType: string, anchor: Json) {
    && v.JObject? && v.fields.Keys == {"candidate_schema", "semantic", "source_anchor"}
    && TextField(v, "candidate_schema") == Some("003") && Field(v, "source_anchor") == Some(anchor)
    && Field(v, "semantic") == Some(JObject(map["candidate_span" := JString(span), "unit_type" := JString(unitType)]))
  }

  lemma IdentityIdentifies(span: string, unitType: string, anchor: Json)
    ensures Identifies(Identity(span, unitType, anchor), span, unitType, anchor)
  {
  }

  lemma IdentifierField(span: string, unitType: string, anchor: Json, sha256: Bytes -> string)
    ensures TextField(Candidate(span, unitType, anchor, sha256), "unit_id")
              == Some("cnu-" + sha256(Encode(Print(Identity(span, unitType, anchor)))))
  {
  }

  /** The fields of a candidate: the two proposed ones, two fixed states, and the anchor. */
  lemma CandidateSays(span: string, unitType: string, anchor: Json, sha256: Bytes -> string)
    ensures var c := Candidate(span, unitType, anchor, sha256);
            && TextField(c, "candidate_span") == Some(span) && TextField(c, "unit_type") == Some(unitType)
            && TextField(c, "interpretation_state") == Some("extracted")
            && TextField(c, "epistemic_state") == Some("uncertain")
            && ArrayField(c, "source_anchors") == Some([anchor])
  {
  }

  /** A candidate's identifier digests its span, its type and the anchor. */
  lemma UnitIdDigests(span: string, unitType: string, anchor: Json, sha256: Bytes -> string)
    ensures exists v :: Identifies(v, span, unitType, anchor)
                        && TextField(Candidate(span, unitType, anchor, sha256), "unit_id")
                           == Some("cnu-" + sha256(Encode(Print(v))))
  {
    IdentityIdentifies(span, unitType, anchor);
    IdentifierField(span, unitType, anchor, sha256);
  }

  // ---------------------------------------------------------------- which refusal is given

  function CandidateRank(e: CandidateError): nat {
    match e
    case BlankSource => 1
    case NotJson => 2
    case RootNotObject => 3
    case UnexpectedRootKeys => 4
    case NoCandidatesArray => 5
    case CandidateNotObject => 6
    case AuthorityFields => 7
    case SemanticRoleFields => 8
    case UnexpectedFields => 9
    case MissingFields => 10
    case InvalidUnitType => 11
    case SpanNotText => 12
    case BlankSpan => 13
    case SpanNotLiteral => 14
  }

  /** What each refusal says of one candidate. */
  ghost predicate CandidateFails(e: CandidateError, item: Json, source: Source) {
    match e
    case AuthorityFields => exists key :: Field(item, key).Some? && key in AUTHORITY_KEYS
    case SemanticRoleFields => exists key :: Field(item, key).Some? && key in SEMANTIC_ROLE_KEYS
    case UnexpectedFields =>
      exists key :: Field(item, key).Some? && key != "candidate_span" && key != "unit_type"
    case MissingFields => Field(item, "candidate_span").None? || Field(item, "unit_type").None?
    case InvalidUnitType => TextField(item, "unit_type").None? || TextField(item, "unit_type").value !in UNIT_TYPES
    case SpanNotText => TextField(item, "candidate_span").None?
    case BlankSpan =>
      exists span :: TextField(item, "candidate_span") == Some(span) && forall c | c in span :: IsSpace(c)
    case SpanNotLiteral =>
      exists span :: TextField(item, "candidate_span") == Some(span) && !Grounded(span, source.text, source.fold)
    case _ => false
  }

  lemma KeysMeet(item: Json, names: set<string>)
    requires item.JObject?
    ensures item.fields.Keys * names != {} <==> exists key :: Field(item, key).Some? && key in names
  {
    if key :| key in item.fields.Keys * names {
      assert Field(item, key).Some?;
    }
    if key :| Field(item, key).Some? && key in names {
      assert key in item.fields.Keys * names;
    }
  }

  lemma KeysAllowed(item: Json, source: Source)
    requires item.JObject?
    ensures item.fields.Keys - ALLOWED_KEYS != {} <==> CandidateFails(UnexpectedFields, item, source)
    ensures item.fields.Keys == ALLOWED_KEYS <==>
              !CandidateFails(UnexpectedFields, item, source) && !CandidateFails(MissingFields, item, source)
  {
    if key :| key in item.fields.Keys - ALLOWED_KEYS {
      assert Field(item, key).Some?;
    }
    if key :| Field(item, key).Some? && key != "candidate_span" && key != "unit_type" {
      assert key in item.fields.Keys - ALLOWED_KEYS;
    }
    if !CandidateFails(UnexpectedFields, item, source) && !CandidateFails(MissingFields, item, source) {
      forall key ensures key in item.fields.Keys <==> key in ALLOWED_KEYS {
        assert Field(item, key).Some? <==> key in item.fields;
      }
    }
  }

  ghost predicate IsFirstFailure(e: CandidateError, fails: CandidateError -> bool) {
    fails(e) && forall f | CandidateRank(f) < CandidateRank(e) :: !fails(f)
  }

  ghost function CandidateFailures(item: Json, source: Source): CandidateError -> bool {
    e => CandidateFails(e, item, source)
  }

  lemma OnlyOneFirst(e: CandidateError, f: CandidateError, fails: CandidateError -> bool)
    requires IsFirstFailure(e, fails) && IsFirstFailure(f, fails)
    ensures e == f
  {
    assert CandidateRank(e) == CandidateRank(f);
  }

  /** The outcome of the key checks. */
  lemma KeyFailures(item: Json, source: Source, sha256: Bytes -> string)
    requires item.JObject? && item.fields.Keys != ALLOWED_KEYS
    ensures Normalize(item, source, sha256).Err?
    ensures IsFirstFailure(Normalize(item, source, sha256).error, CandidateFailures(item, source))
  {
    KeysMeet(item, AUTHORITY_KEYS);
    KeysMeet(item, SEMANTIC_ROLE_KEYS);
    KeysAllowed(item, source);
    AllowedKeysOnly();
    if item.fields.Keys * AUTHORITY_KEYS == {} && item.fields.Keys * SEMANTIC_ROLE_KEYS == {}
       && item.fields.Keys - ALLOWED_KEYS == {} {
      assert CandidateFails(MissingFields, item, source);
    }
  }

  /** Once the key checks pass, four are left. */
  lemma FirstOfFields(fails: CandidateError -> bool)
    requires forall e | CandidateRank(e) <= 10 :: !fails(e)
    ensures fails(InvalidUnitType) ==> IsFirstFailure(InvalidUnitType, fails)
    ensures !fails(InvalidUnitType) && fails(SpanNotText) ==> IsFirstFailure(SpanNotText, fails)
    ensures !fails(InvalidUnitType) && !fails(SpanNotText) && fails(BlankSpan) ==> IsFirstFailure(BlankSpan, fails)
    ensures !fails(InvalidUnitType) && !fails(SpanNotText) && !fails(BlankSpan) && fails(SpanNotLiteral) ==>
              IsFirstFailure(SpanNotLiteral, fails)
    ensures !fails(InvalidUnitType) && !fails(SpanNotText) && !fails(BlankSpan) && !fails(SpanNotLiteral) ==>
              forall e :: !fails(e)
  {
    forall e | !fails(InvalidUnitType) && !fails(SpanNotText) && !fails(BlankSpan) && !fails(SpanNotLiteral)
      ensures !fails(e)
    {
      match e
      case InvalidUnitType =>
      case _ =>
    }
  }

  lemma KeysPass(item: Json, source: Source)
    requires item.JObject? && item.fields.Keys == ALLOWED_KEYS
    ensures forall e | CandidateRank(e) <= 10 :: !CandidateFailures(item, source)(e)
  {
    KeysMeet(item, AUTHORITY_KEYS);
    KeysMeet(item, SEMANTIC_ROLE_KEYS);
    KeysAllowed(item, source);
    AllowedKeysOnly();
  }

  lemma FieldOutcome(item: Json, source: Source, sha256: Bytes -> string)
    requires item.JObject? && item.fields.Keys == ALLOWED_KEYS
    ensures var r := Normalize(item, source, sha256);
            if CandidateFails(InvalidUnitType, item, source) then r == Err(InvalidUnitType)
            else if CheckGrounding(item, source).Err? then r == Err(CheckGrounding(item, source).error)
            else r.Ok?
  {
    AllowedKeysOnly();
    assert item.fields.Keys * AUTHORITY_KEYS == {} && item.fields.Keys * SEMANTIC_ROLE_KEYS == {};
  }

  /** The outcome of the checks on the two fields. */
  lemma FieldFailures(item: Json, source: Source, sha256: Bytes -> string)
    requires item.JObject? && item.fields.Keys == ALLOWED_KEYS
    ensures match Normalize(item, source, sha256)
            case Ok(_) => forall e :: !CandidateFailures(item, source)(e)
            case Err(e) => IsFirstFailure(e, CandidateFailures(item, source))
  {
    KeysPass(item, source);
    FieldOutcome(item, source, sha256);
    SpanFailures(item, source);
    FirstOfFields(CandidateFailures(item, source));
  }

  lemma SpanFailures(item: Json, source: Source)
    requires item.JObject? && "candidate_span" in item.fields
    ensures var r := CheckGrounding(item, source);
            && (r == Err(SpanNotText) <==> CandidateFails(SpanNotText, item, source))
            && (r == Err(BlankSpan) <==> CandidateFails(BlankSpan, item, source))
            && (r == Err(SpanNotLiteral) <==>
                  !CandidateFails(BlankSpan, item, source) && CandidateFails(SpanNotLiteral, item, source))
            && (r.Err? ==> r.error in {SpanNotText, BlankSpan, SpanNotLiteral})
  {
    if item.fields["candidate_span"].JString? {
      assert TextField(item, "candidate_span") == Some(item.fields["candidate_span"].s);
    }
  }

  /** The refusal of a candidate is the first that applies. */
  lemma NormalizeErrorExact(item: Json, source: Source, sha256: Bytes -> string, e: CandidateError)
    requires item.JObject?
    ensures Normalize(item, source, sha256) == Err(e) <==> IsFirstFailure(e, CandidateFailures(item, source))
  {
    if item.fields.Keys == ALLOWED_KEYS {
      FieldFailures(item, source, sha256);
    } else {
      KeyFailures(item, source, sha256);
    }
    if IsFirstFailure(e, CandidateFailures(item, source)) && Normalize(item, source, sha256).Err? {
      OnlyOneFirst(e, Normalize(item, source, sha256).error, CandidateFailures(item, source));
    }
  }

  /** The k-th candidate is the first one refused, for the reason `e`. */
  ghost predicate FirstRefused(items: seq<Json>, k: nat, source: Source, e: CandidateError) {
    && k < |items| && IsFirstFailure(e, CandidateFailures(items[k], source))
    && forall j | 0 <= j < k :: Acceptable(items[j], source)
  }

  lemma {:induction false} FirstRefusedIs(items: seq<Json>, source: Source, sha256: Bytes -> string, e: CandidateError)
    requires forall i | i in items :: i.JObject?
    ensures NormalizeAll(items, source, sha256) == Err(e) <==> exists k :: FirstRefused(items, k, source, e)
  {
    if items != [] {
      assert items[0] in items && forall i | i in items[1..] :: i in items;
      FirstRefusedIs(items[1..], source, sha256, e);
      NormalizeErrorExact(items[0], source, sha256, e);
      NormalizeExact(items[0], source, sha256);
      RefusedLater(items, source, e);
      if FirstRefused(items, 0, source, e) {
        assert IsFirstFailure(e, CandidateFailures(items[0], source));
      }
    }
  }

  lemma RefusedLater(items: seq<Json>, source: Source, e: CandidateError)
    requires items != []
    ensures (exists k :: FirstRefused(items, k, source, e)) <==>
              || IsFirstFailure(e, CandidateFailures(items[0], source))
              || (Acceptable(items[0], source) && exists k :: FirstRefused(items[1..], k, source, e))
  {
    if IsFirstFailure(e, CandidateFailures(items[0], source)) {
      assert FirstRefused(items, 0, source, e);
    }
    if Acceptable(items[0], source) {
      if k: nat :| FirstRefused(items[1..], k, source, e) {
        assert items[1..][k] == items[k + 1];
        assert forall j | 0 < j <= k :: items[j] == items[1..][j - 1];
        assert FirstRefused(items, k + 1, source, e);
      }
    }
    if k: nat :| FirstRefused(items, k, source, e) && k > 0 {
      assert items[1..][k - 1] == items[k];
      assert forall j | 0 <= j < k - 1 :: items[1..][j] == items[j + 1];
      assert FirstRefused(items[1..], k - 1, source, e);
    }
  }

  /** The response is a list of objects under its one key. */
  ghost predicate Offers(content: string, items: seq<Json>) {
    && Loads(content, false).Some? && ArrayField(Loads(content, false).value, "candidates") == Some(items)
    && forall i | i in items :: i.JObject?
  }

  /** What each refusal says of a response. */
  ghost predicate ResponseFails(e: CandidateError, content: string, source: Source) {
    var root := Loads(content, false);
    match e
    case BlankSource => forall c | c in source.text :: IsSpace(c)
    case NotJson => root.None?
    case RootNotObject => root.Some? && !root.value.JObject?
    case UnexpectedRootKeys => root.Some? && exists key :: Field(root.value, key).Some? && key != "candidates"
    case NoCandidatesArray => root.Some? && ArrayField(root.value, "candidates").None?
    case CandidateNotObject =>
      && root.Some? && ArrayField(root.value, "candidates").Some?
      && exists i :: i in ArrayField(root.value, "candidates").value && !i.JObject?
    case _ => exists items: seq<Json>, k: nat :: Offers(content, items) && FirstRefused(items, k, source, e)
  }

  ghost function ResponseFailures(content: string, source: Source): CandidateError -> bool {
    e => ResponseFails(e, content, source)
  }

  lemma RootKeysExact(root: Json)
    requires root.JObject?
    ensures root.fields.Keys - {"candidates"} != {} <==> exists key :: Field(root, key).Some? && key != "candidates"
  {
    if key :| key in root.fields.Keys - {"candidates"} {
      assert Field(root, key).Some?;
    }
    if key :| Field(root, key).Some? && key != "candidates" {
      assert key in root.fields.Keys - {"candidates"};
    }
  }

  lemma ItemsFailures(content: string, source: Source)
    requires !Blank(source.text)
    ensures match CandidateItems(content)
            case Ok(items) =>
              Offers(content, items) && forall e | CandidateRank(e) <= 6 :: !ResponseFailures(content, source)(e)
            case Err(e) => CandidateRank(e) <= 6 && IsFirstFailure(e, ResponseFailures(content, source))
  {
    if Loads(content, false).Some? {
      var root := Loads(content, false).value;
      if root.JObject? {
        RootKeysExact(root);
      }
    }
  }

  lemma OfferedFailures(content: string, items: seq<Json>, source: Source, e: CandidateError)
    requires Offers(content, items) && CandidateRank(e) > 6
    ensures ResponseFails(e, content, source) <==> exists k :: FirstRefused(items, k, source, e)
  {
    if k: nat :| FirstRefused(items, k, source, e) {
      assert Offers(content, items) && FirstRefused(items, k, source, e);
    }
  }

  lemma OneRefused(items: seq<Json>, source: Source, sha256: Bytes -> string, e: CandidateError, f: CandidateError)
    requires (forall i | i in items :: i.JObject?)
    requires (exists k :: FirstRefused(items, k, source, e)) && exists k :: FirstRefused(items, k, source, f)
    ensures e == f
  {
    FirstRefusedIs(items, source, sha256, e);
    FirstRefusedIs(items, source, sha256, f);
  }

  lemma OutcomeOfItems(content: string, items: seq<Json>, source: Source, sha256: Bytes -> string, e: CandidateError)
    requires Offers(content, items) && NormalizeAll(items, source, sha256) == Err(e)
    requires forall f | CandidateRank(f) <= 6 :: !ResponseFailures(content, source)(f)
    ensures IsFirstFailure(e, ResponseFailures(content, source))
  {
    FirstRefusedIs(items, source, sha256, e);
    RefusalIsOfItem(items, source, e);
    OfferedFailures(content, items, source, e);
    forall f | CandidateRank(f) < CandidateRank(e) ensures !ResponseFailures(content, source)(f) {
      if CandidateRank(f) > 6 && ResponseFails(f, content, source) {
        OfferedFailures(content, items, source, f);
        OneRefused(items, source, sha256, e, f);
      }
    }
  }

  lemma RefusalIsOfItem(items: seq<Json>, source: Source, e: CandidateError)
    requires exists k :: FirstRefused(items, k, source, e)
    ensures CandidateRank(e) > 6
  {
    var k: nat :| FirstRefused(items, k, source, e);
    assert CandidateFails(e, items[k], source);
  }

  /**
   A response is refused for exactly the first reason that applies: of the source, of the response, or of its
   first bad item.
   */
  lemma ProposeErrorExact(content: string, source: Source, sha256: Bytes -> string, e: CandidateError)
    ensures Propose(content, source, sha256) == Err(e) <==> IsFirstFailure(e, ResponseFailures(content, source))
  {
    OutcomeOfResponse(content, source, sha256);
    if IsFirstFailure(e, ResponseFailures(content, source)) && Propose(content, source, sha256).Err? {
      OnlyOneFirst(e, Propose(content, source, sha256).error, ResponseFailures(content, source));
    }
  }

  lemma OutcomeOfResponse(content: string, source: Source, sha256: Bytes -> string)
    ensures match Propose(content, source, sha256)
            case Ok(_) => forall e :: !ResponseFailures(content, source)(e)
            case Err(e) => IsFirstFailure(e, ResponseFailures(content, source))
  {
    if !Blank(source.text) {
      ItemsFailures(content, source);
      if CandidateItems(content).Ok? {
        var items := CandidateItems(content).value;
        if NormalizeAll(items, source, sha256).Err? {
          OutcomeOfItems(content, items, source, sha256, NormalizeAll(items, source, sha256).error);
        } else {
          NothingRefused(content, items, source, sha256);
        }
      }
    }
  }

  lemma NothingRefused(content: string, items: seq<Json>, source: Source, sha256: Bytes -> string)
    requires Offers(content, items) && NormalizeAll(items, source, sha256).Ok?
    requires forall f | CandidateRank(f) <= 6 :: !ResponseFailures(content, source)(f)
    ensures forall e :: !ResponseFailures(content, source)(e)
  {
    forall e ensures !ResponseFailures(content, source)(e) {
      FirstRefusedIs(items, source, sha256, e);
      if CandidateRank(e) > 6 {
        OfferedFailures(content, items, source, e);
      }
    }
  }
}
