/** From provider text to an accepted proposal payload, and the envelope put around it. */
module ProposalPayload {
  import opened Outcomes
  import opened Text
  import opened Utf8
  import opened Digests
  import opened Json
  import opened JsonAccess
  import opened JsonPath
  import opened CanonicalGate
  import opened Grounding
  import opened ProposalBoundary

  datatype Payload = Payload(assertions: seq<Json>, references: seq<Json>)

  // ---------------------------------------------------------------- parsing

  /** `_parse_payload`, as a function. */
  function ParsePayload(content: string, fold: Fold): Result<Json, ProposalError> {
    match Loads(content, false)
    case None => Err(NotJson)
    case Some(root) =>
      if !root.JObject? then Err(RootNotObject)
      else if root.fields.Keys - ROOT_KEYS != {} then Err(UnexpectedRootKeys)
      else if ForbiddenKeys(root, fold) != {} then Err(AuthorityFields)
      else if StatusValuesIn(root, fold) != {} then Err(StatusValues)
      else Ok(root)
  }

  /** `_parse_payload`, with its two accumulating scans. */
  method ParseProvider(content: string, fold: Fold) returns (r: Result<Json, ProposalError>)
    ensures r == ParsePayload(content, fold)
  {
    var parsed := Loads(content, false);
    if parsed.None? {
      return Err(NotJson);
    }
    var root := parsed.value;
    if !root.JObject? {
      return Err(RootNotObject);
    }
    if root.fields.Keys - ROOT_KEYS != {} {
      return Err(UnexpectedRootKeys);
    }
    var keys := new Findings();
    keys.ScanKeys(root, fold);
    if keys.found != {} {
      return Err(AuthorityFields);
    }
    var tokens := new Findings();
    tokens.ScanValues(root, fold);
    if tokens.found != {} {
      return Err(StatusValues);
    }
    return Ok(root);
  }

  // ---------------------------------------------------------------- items

  predicate TextOrNull(v: Json) {
    v.JString? || v.JNull?
  }

  predicate Texts(v: Json) {
    v.JArray? && forall i | i in v.items :: i.JString?
  }

  /** What an assertion must be: a known slot, a value and a quote, a known force, and qualifiers that are texts. */
  predicate WellFormedAssertion(item: Json) {
    && item.JObject? && REQUIRED_KEYS <= item.fields.Keys <= REQUIRED_KEYS + {QUALIFIERS}
    && var slot, value := item.fields["slot"], item.fields["proposed_value"];
       var quote := item.fields["proposed_source_quote"];
    && slot.JString? && slot.s in SLOTS && TextOrNull(value) && TextOrNull(quote)
    && (slot.s == "normative_force" && value.JString? ==> value.s in FORCES)
    && (QUALIFIERS in item.fields ==> Texts(item.fields[QUALIFIERS]))
  }

  predicate WellFormedReference(item: Json) {
    && item.JObject? && item.fields.Keys == REFERENCE_KEYS
    && item.fields["reference_text"].JString? && !Blank(item.fields["reference_text"].s)
    && item.fields["reference_kind"].JString? && item.fields["reference_kind"].s in REFERENCE_KINDS
  }

  /** The first check an assertion fails. */
  function AssertionError(item: Json): Option<ProposalError> {
    if !item.JObject? then Some(AssertionNotObject)
    else if item.fields.Keys - (REQUIRED_KEYS + {QUALIFIERS}) != {} then Some(AssertionUnexpectedFields)
    else if REQUIRED_KEYS - item.fields.Keys != {} then Some(AssertionMissingFields)
    else FieldError(item)
  }

  function FieldError(item: Json): Option<ProposalError>
    requires item.JObject? && REQUIRED_KEYS - item.fields.Keys == {}
  {
    NothingMissing(REQUIRED_KEYS, item.fields.Keys);
    var slot, value, quote := item.fields["slot"], item.fields["proposed_value"], item.fields["proposed_source_quote"];
    if !slot.JString? || slot.s !in SLOTS then Some(InvalidSlot)
    else if !TextOrNull(value) then Some(ValueNotText)
    else if !TextOrNull(quote) then Some(QuoteNotText)
    else if slot.s == "normative_force" && value.JString? && value.s !in FORCES then Some(InvalidForce)
    else if QUALIFIERS in item.fields && !Texts(item.fields[QUALIFIERS]) then Some(QualifiersNotTexts)
    else None
  }

  lemma AssertionErrorExact(item: Json)
    ensures AssertionError(item) == None <==> WellFormedAssertion(item)
  {
    if item.JObject? {
      NothingMissing(item.fields.Keys, REQUIRED_KEYS + {QUALIFIERS});
      NothingMissing(REQUIRED_KEYS, item.fields.Keys);
    }
  }

  lemma SameFields(item: Json, rebuilt: map<string, Json>)
    requires item.JObject? && REQUIRED_KEYS <= item.fields.Keys <= REQUIRED_KEYS + {QUALIFIERS}
    requires rebuilt.Keys == if QUALIFIERS in item.fields then REQUIRED_KEYS + {QUALIFIERS} else REQUIRED_KEYS
    requires forall k | k in rebuilt && k in item.fields :: rebuilt[k] == item.fields[k]
    ensures JObject(rebuilt) == item
  {
    assert rebuilt.Keys == item.fields.Keys;
    assert rebuilt == item.fields;
  }

  /** `_normalize_assertion`: rebuilds the assertion field by field, and what it rebuilds is the assertion. */
  method NormalizeAssertion(item: Json) returns (r: Result<Json, ProposalError>)
    ensures AssertionError(item).None? ==> r == Ok(item)
    ensures AssertionError(item).Some? ==> r == Err(AssertionError(item).value)
  {
    AssertionErrorExact(item);
    if !item.JObject? {
      return Err(AssertionNotObject);
    }
    if item.fields.Keys - (REQUIRED_KEYS + {QUALIFIERS}) != {} {
      return Err(AssertionUnexpectedFields);
    }
    if REQUIRED_KEYS - item.fields.Keys != {} {
      return Err(AssertionMissingFields);
    }
    NothingMissing(REQUIRED_KEYS, item.fields.Keys);
    NothingMissing(item.fields.Keys, REQUIRED_KEYS + {QUALIFIERS});
    var slot := item.fields["slot"];
    if !slot.JString? || slot.s !in SLOTS {
      return Err(InvalidSlot);
    }
    var value := item.fields["proposed_value"];
    if !TextOrNull(value) {
      return Err(ValueNotText);
    }
    var quote := item.fields["proposed_source_quote"];
    if !TextOrNull(quote) {
      return Err(QuoteNotText);
    }
    if slot.s == "normative_force" && value.JString? && value.s !in FORCES {
      return Err(InvalidForce);
    }
    var normalized := map["slot" := slot, "proposed_value" := value, "proposed_source_quote" := quote];
    if QUALIFIERS in item.fields {
      var qualifiers := item.fields[QUALIFIERS];
      if !Texts(qualifiers) {
        return Err(QualifiersNotTexts);
      }
      normalized := normalized[QUALIFIERS := JArray(qualifiers.items)];
    }
    SameFields(item, normalized);
    return Ok(JObject(normalized));
  }

  function ReferenceError(item: Json): Option<ProposalError> {
    if !item.JObject? then Some(ReferenceNotObject)
    else if item.fields.Keys != REFERENCE_KEYS then Some(ReferenceWrongFields)
    else if !item.fields["reference_text"].JString? || Blank(item.fields["reference_text"].s) then Some(BlankReference)
    else if !item.fields["reference_kind"].JString? || item.fields["reference_kind"].s !in REFERENCE_KINDS then
      Some(InvalidReferenceKind)
    else None
  }

  /** `_normalize_reference` */
  method NormalizeReference(item: Json) returns (r: Result<Json, ProposalError>)
    ensures ReferenceError(item).None? ==> r == Ok(item)
    ensures ReferenceError(item).Some? ==> r == Err(ReferenceError(item).value)
  {
    if !item.JObject? {
      return Err(ReferenceNotObject);
    }
    if item.fields.Keys != REFERENCE_KEYS {
      return Err(ReferenceWrongFields);
    }
    var text := item.fields["reference_text"];
    if !text.JString? || Blank(text.s) {
      return Err(BlankReference);
    }
    var kind := item.fields["reference_kind"];
    if !kind.JString? || kind.s !in REFERENCE_KINDS {
      return Err(InvalidReferenceKind);
    }
    var rebuilt := map["reference_text" := text, "reference_kind" := kind];
    assert rebuilt == item.fields;
    return Ok(JObject(rebuilt));
  }

  // ---------------------------------------------------------------- the payload

  function ArrayOr(parsed: Json, key: string): Json
    requires parsed.JObject?
  {
    if key in parsed.fields then parsed.fields[key] else JArray([])
  }

  function FirstError(items: seq<Json>, check: Json -> Option<ProposalError>): Option<ProposalError> {
    if items == [] then None
    else if check(items[0]).Some? then check(items[0])
    else FirstError(items[1..], check)
  }

  lemma {:induction false} FirstErrorExact(items: seq<Json>, check: Json -> Option<ProposalError>)
    ensures FirstError(items, check).None? <==> forall i | i in items :: check(i).None?
  {
    if items != [] {
      FirstErrorExact(items[1..], check);
      assert items == [items[0]] + items[1..];
    }
  }

  lemma {:induction false} FirstErrorAt(items: seq<Json>, check: Json -> Option<ProposalError>, k: nat)
    requires k < |items| && (forall j | 0 <= j < k :: check(items[j]).None?) && check(items[k]).Some?
    ensures FirstError(items, check) == check(items[k])
  {
    if k > 0 {
      FirstErrorAt(items[1..], check, k - 1);
    }
  }

  /** What a parsed response comes to: both arrays, unchanged, or the first complaint. */
  function PayloadOf(parsed: Json): Result<Payload, ProposalError>
    requires parsed.JObject?
  {
    var assertions, references :=
      ArrayOr(parsed, "proposed_assertions"), ArrayOr(parsed, "proposed_unresolved_references");
    if !assertions.JArray? then Err(AssertionsNotArray)
    else if !references.JArray? then Err(ReferencesNotArray)
    else match (FirstError(assertions.items, AssertionError), FirstError(references.items, ReferenceError))
      case (Some(e), _) => Err(e)
      case (None, Some(e)) => Err(e)
      case (None, None) => Ok(Payload(assertions.items, references.items))
  }

  method NormalizeAssertions(items: seq<Json>) returns (r: Result<seq<Json>, ProposalError>)
    ensures FirstError(items, AssertionError).None? ==> r == Ok(items)
    ensures FirstError(items, AssertionError).Some? ==> r == Err(FirstError(items, AssertionError).value)
  {
    var kept: seq<Json> := [];
    for k := 0 to |items|
      invariant kept == items[..k] && forall j | 0 <= j < k :: AssertionError(items[j]).None?
    {
      var one := NormalizeAssertion(items[k]);
      if one.Err? {
        FirstErrorAt(items, AssertionError, k);
        return Err(one.error);
      }
      kept := kept + [one.value];
    }
    assert items[..|items|] == items;
    FirstErrorExact(items, AssertionError);
    return Ok(kept);
  }

  method NormalizeReferences(items: seq<Json>) returns (r: Result<seq<Json>, ProposalError>)
    ensures FirstError(items, ReferenceError).None? ==> r == Ok(items)
    ensures FirstError(items, ReferenceError).Some? ==> r == Err(FirstError(items, ReferenceError).value)
  {
    var kept: seq<Json> := [];
    for k := 0 to |items|
      invariant kept == items[..k] && forall j | 0 <= j < k :: ReferenceError(items[j]).None?
    {
      var one := NormalizeReference(items[k]);
      if one.Err? {
        FirstErrorAt(items, ReferenceError, k);
        return Err(one.error);
      }
      kept := kept + [one.value];
    }
    assert items[..|items|] == items;
    FirstErrorExact(items, ReferenceError);
    return Ok(kept);
  }

  /** `_model_payload` */
  method ModelPayload(parsed: Json) returns (r: Result<Payload, ProposalError>)
    requires parsed.JObject?
    ensures r == PayloadOf(parsed)
  {
    var assertions := ArrayOr(parsed, "proposed_assertions");
    if !assertions.JArray? {
      return Err(AssertionsNotArray);
    }
    var references := ArrayOr(parsed, "proposed_unresolved_references");
    if !references.JArray? {
      return Err(ReferencesNotArray);
    }
    var keptAssertions := NormalizeAssertions(assertions.items);
    if keptAssertions.Err? {
      return Err(keptAssertions.error);
    }
    var keptReferences := NormalizeReferences(references.items);
    if keptReferences.Err? {
      return Err(keptReferences.error);
    }
    return Ok(Payload(keptAssertions.value, keptReferences.value));
  }

  /**
   Acceptance, exactly: both arrays hold only well-formed items. The payload is those arrays themselves, so
   order and duplicates survive, and normalizing the payload again changes nothing.
   */
  lemma PayloadExact(parsed: Json)
    requires parsed.JObject?
    ensures var a, r := ArrayOr(parsed, "proposed_assertions"), ArrayOr(parsed, "proposed_unresolved_references");
            PayloadOf(parsed).Ok? <==>
              && a.JArray? && (forall i | i in a.items :: WellFormedAssertion(i))
              && r.JArray? && forall i | i in r.items :: WellFormedReference(i)
    ensures PayloadOf(parsed).Ok? ==>
              && var p := PayloadOf(parsed).value;
              && ArrayOr(parsed, "proposed_assertions") == JArray(p.assertions)
              && ArrayOr(parsed, "proposed_unresolved_references") == JArray(p.references)
              && PayloadOf(PayloadJson(p)) == Ok(p)
  {
    var a, r := ArrayOr(parsed, "proposed_assertions"), ArrayOr(parsed, "proposed_unresolved_references");
    if a.JArray? && r.JArray? {
      FirstErrorExact(a.items, AssertionError);
      FirstErrorExact(r.items, ReferenceError);
      forall i ensures AssertionError(i).None? <==> WellFormedAssertion(i) {
        AssertionErrorExact(i);
      }
    }
  }

  function PayloadJson(p: Payload): Json {
    JObject(map[
      "proposed_assertions" := JArray(p.assertions), "proposed_unresolved_references" := JArray(p.references)])
  }

  // ---------------------------------------------------------------- no authority survives

  /** Folding leaves lower-case ASCII letters and the low line alone. */
  ghost predicate LowerStays(fold: Fold) {
    forall c: char | 'a' <= c <= 'z' || c == '_' :: fold(c) == [c]
  }

  predicate LowerName(s: string) {
    forall c | c in s :: 'a' <= c <= 'z' || c == '_'
  }

  lemma PlainKey(key: string, fold: Fold)
    requires LowerStays(fold) && LowerName(key) && key !in FORBIDDEN_KEYS
    ensures !ForbiddenKey(key, fold)
  {
    FoldAgain(key, fold);
  }

  const CONTRACT_KEYS: set<string> := {
    "proposed_assertions", "proposed_unresolved_references", "slot", "proposed_value", "proposed_source_quote",
    QUALIFIERS, "reference_text", "reference_kind"}

  lemma LongKeysAreLower()
    ensures LowerName("proposed_assertions") && LowerName("proposed_unresolved_references")
    ensures LowerName("proposed_source_quote") && LowerName(QUALIFIERS)
  {
  }

  lemma ShortKeysAreLower()
    ensures LowerName("slot") && LowerName("proposed_value") && LowerName("reference_text")
            && LowerName("reference_kind")
  {
  }

  lemma ContractKeysAreLower()
    ensures forall k | k in CONTRACT_KEYS :: LowerName(k)
  {
    LongKeysAreLower();
    ShortKeysAreLower();
  }

  lemma ContractKeysAreAllowed()
    ensures CONTRACT_KEYS * FORBIDDEN_KEYS == {}
    ensures ROOT_KEYS <= CONTRACT_KEYS && REQUIRED_KEYS + {QUALIFIERS} <= CONTRACT_KEYS
            && REFERENCE_KEYS <= CONTRACT_KEYS
  {
  }

  /** No key the contract names is an authority key. */
  lemma ContractKeys(key: string, fold: Fold)
    requires LowerStays(fold) && key in CONTRACT_KEYS
    ensures !ForbiddenKey(key, fold)
  {
    ContractKeysAreLower();
    ContractKeysAreAllowed();
    PlainKey(key, fold);
  }

  lemma TextsHaveNoAuthority(v: Json, fold: Fold)
    requires TextOrNull(v) || Texts(v)
    ensures ForbiddenKeys(v, fold) == {}
  {
    if v.JArray? {
      CleanItems(v.items, fold);
    }
  }

  lemma ItemHoldsTexts(item: Json, k: string)
    requires (WellFormedAssertion(item) || WellFormedReference(item)) && k in item.fields
    ensures k in CONTRACT_KEYS && (TextOrNull(item.fields[k]) || Texts(item.fields[k]))
  {
    ContractKeysAreAllowed();
  }

  lemma ItemHasNoAuthority(item: Json, fold: Fold)
    requires LowerStays(fold) && (WellFormedAssertion(item) || WellFormedReference(item))
    ensures ForbiddenKeys(item, fold) == {}
  {
    forall k | k in item.fields ensures !ForbiddenKey(k, fold) && ForbiddenKeys(item.fields[k], fold) == {} {
      ItemHoldsTexts(item, k);
      ContractKeys(k, fold);
      TextsHaveNoAuthority(item.fields[k], fold);
    }
    CleanMembers(item, fold);
  }

  lemma ItemsHaveNoAuthority(items: seq<Json>, fold: Fold)
    requires LowerStays(fold) && forall i | i in items :: WellFormedAssertion(i) || WellFormedReference(i)
    ensures ForbiddenKeys(JArray(items), fold) == {}
  {
    forall i | i in items ensures ForbiddenKeys(i, fold) == {} {
      ItemHasNoAuthority(i, fold);
    }
    CleanItems(items, fold);
  }

  /** The part of a parsed response `_model_payload` never reads. */
  function Unread(parsed: Json): Json
    requires parsed.JObject?
  {
    JObject(parsed.fields - ROOT_KEYS)
  }

  /**
   Success of `_model_payload` alone: an authority key can only hide where it does not look, under or as a
   root key other than its two. So the response is free of authority keys exactly when that rest is.
   */
  lemma PayloadAloneExact(parsed: Json, fold: Fold)
    requires LowerStays(fold) && parsed.JObject? && PayloadOf(parsed).Ok?
    ensures ForbiddenKeys(parsed, fold) == {} <==> ForbiddenKeys(Unread(parsed), fold) == {}
  {
    PayloadExact(parsed);
    var p := PayloadOf(parsed).value;
    ItemsHaveNoAuthority(p.assertions, fold);
    ItemsHaveNoAuthority(p.references, fold);
    forall k | k in parsed.fields && k in ROOT_KEYS
      ensures !ForbiddenKey(k, fold) && ForbiddenKeys(parsed.fields[k], fold) == {}
    {
      ContractKeysAreAllowed();
      ContractKeys(k, fold);
      assert parsed.fields[k] == ArrayOr(parsed, k);
    }
    WithoutCleanMembers(parsed, ROOT_KEYS, fold);
  }

  /** With the root check, nothing is left over: the key scan never changes the outcome. */
  lemma KeyScanIsSubsumed(parsed: Json, fold: Fold)
    requires LowerStays(fold) && parsed.JObject? && parsed.fields.Keys <= ROOT_KEYS && PayloadOf(parsed).Ok?
    ensures ForbiddenKeys(parsed, fold) == {}
    ensures forall path, key | KeyAt(parsed, path, key) :: !ForbiddenKey(key, fold)
  {
    PayloadAloneExact(parsed, fold);
    assert parsed.fields - ROOT_KEYS == map[];
    forall path, key | KeyAt(parsed, path, key) ensures !ForbiddenKey(key, fold) {
      KeysExact(parsed, key, fold);
    }
  }

  lemma VerdictIsForbidden(fold: Fold)
    requires LowerStays(fold)
    ensures ForbiddenKey("verdict", fold)
  {
    assert LowerName("verdict");
    FoldAgain("verdict", fold);
  }

  lemma EmptyPayload(parsed: Json)
    requires parsed.JObject? && parsed.fields.Keys * ROOT_KEYS == {}
    ensures PayloadOf(parsed) == Ok(Payload([], []))
  {
    assert "proposed_assertions" in ROOT_KEYS && "proposed_unresolved_references" in ROOT_KEYS;
    assert forall k | k in ROOT_KEYS :: k !in parsed.fields.Keys * ROOT_KEYS;
    var none: seq<Json> := [];
    assert ArrayOr(parsed, "proposed_assertions") == JArray(none);
    assert ArrayOr(parsed, "proposed_unresolved_references") == JArray(none);
    assert FirstError(none, AssertionError).None? && FirstError(none, ReferenceError).None?;
  }

  /** Without the root check the scan matters: this response passes `_model_payload` with a verdict in it. */
  lemma PayloadAloneMisses(fold: Fold)
    requires LowerStays(fold)
    ensures var parsed := JObject(map["verdict" := JNull]);
            PayloadOf(parsed) == Ok(Payload([], [])) && "verdict" in ForbiddenKeys(parsed, fold)
  {
    var parsed := JObject(map["verdict" := JNull]);
    EmptyPayload(parsed);
    VerdictIsForbidden(fold);
    KeyFound(parsed, [], "verdict", fold);
  }

  /** Nothing that parses holds a status token as a value, or an authority key, at any depth. */
  lemma ParsedIsClean(content: string, fold: Fold)
    requires ParsePayload(content, fold).Ok?
    ensures var root := ParsePayload(content, fold).value;
            && (forall path, s | At(root, path) == Some(JString(s)) :: !IsStatus(s, fold))
            && (forall path, key | KeyAt(root, path, key) :: !IsAuthority(key, fold))
  {
    var root := ParsePayload(content, fold).value;
    forall path, s | At(root, path) == Some(JString(s)) ensures !IsStatus(s, fold) {
      if IsStatus(s, fold) {
        StatusFound(root, path, s, fold);
      }
    }
    forall path, key | KeyAt(root, path, key) ensures !IsAuthority(key, fold) {
      KeysExact(root, key, fold);
      assert key !in ForbiddenKeys(root, fold);
    }
  }

  /** A status word anywhere in the response refuses it, whatever its case and whatever blanks stand around it. */
  lemma PaddedStatusRefused(content: string, fold: Fold, path: Position, a: string, t: string, b: string)
    requires Loads(content, false).Some? && At(Loads(content, false).value, path) == Some(JString(a + t + b))
    requires Blank(a) && Blank(b) && Trimmed(t) && FoldText(t, fold) == "established"
    ensures ParsePayload(content, fold).Err?
  {
    assert IsStatus(a + t + b, fold);
    if ParsePayload(content, fold).Ok? {
      ParsedIsClean(content, fold);
    }
  }

  // ---------------------------------------------------------------- which refusal is given

  /** The order of the checks, of the response first, then of an assertion, then of a reference. */
  function ErrorRank(e: ProposalError): nat {
    match e
    case NotJson => 1
    case RootNotObject => 2
    case UnexpectedRootKeys => 3
    case AuthorityFields => 4
    case StatusValues => 5
    case AssertionsNotArray => 6
    case ReferencesNotArray => 7
    case AssertionNotObject => 8
    case AssertionUnexpectedFields => 9
    case AssertionMissingFields => 10
    case InvalidSlot => 11
    case ValueNotText => 12
    case QuoteNotText => 13
    case InvalidForce => 14
    case QualifiersNotTexts => 15
    case ReferenceNotObject => 16
    case ReferenceWrongFields => 17
    case BlankReference => 18
    case InvalidReferenceKind => 19
  }

  lemma RankInjective(e: ProposalError, f: ProposalError)
    requires ErrorRank(e) == ErrorRank(f)
    ensures e == f
  {
  }

  /** An authority key of some object, at any depth. */
  ghost predicate HoldsAuthority(root: Json, fold: Fold) {
    exists path, key :: KeyAt(root, path, key) && IsAuthority(key, fold)
  }

  /** A status word standing as a value, at any depth. */
  ghost predicate HoldsStatus(root: Json, fold: Fold) {
    exists path, s :: At(root, path) == Some(JString(s)) && IsStatus(s, fold)
  }

  /** What each refusal says of a response. */
  ghost predicate ResponseFails(e: ProposalError, content: string, fold: Fold) {
    var root := Loads(content, false);
    match e
    case NotJson => root.None?
    case RootNotObject => root.Some? && !root.value.JObject?
    case UnexpectedRootKeys =>
      root.Some? && exists key :: Field(root.value, key).Some?
                                  && key != "proposed_assertions" && key != "proposed_unresolved_references"
    case AuthorityFields => root.Some? && HoldsAuthority(root.value, fold)
    case StatusValues => root.Some? && HoldsStatus(root.value, fold)
    case _ => false
  }

  lemma RootKeysExact(root: Json)
    requires root.JObject?
    ensures root.fields.Keys - ROOT_KEYS != {} <==>
              exists key :: Field(root, key).Some?
                            && key != "proposed_assertions" && key != "proposed_unresolved_references"
  {
    if root.fields.Keys - ROOT_KEYS != {} {
      var key :| key in root.fields.Keys - ROOT_KEYS;
      assert Field(root, key).Some?;
    }
    if key :| Field(root, key).Some? && key != "proposed_assertions" && key != "proposed_unresolved_references" {
      assert key in root.fields.Keys - ROOT_KEYS;
    }
  }

  lemma KeyScanExact(root: Json, fold: Fold)
    ensures ForbiddenKeys(root, fold) != {} <==> HoldsAuthority(root, fold)
  {
    if ForbiddenKeys(root, fold) != {} {
      var key :| key in ForbiddenKeys(root, fold);
      KeysExact(root, key, fold);
    }
    if path, key :| KeyAt(root, path, key) && IsAuthority(key, fold) {
      KeysExact(root, key, fold);
      assert key in ForbiddenKeys(root, fold);
    }
  }

  lemma ValueScanExact(root: Json, fold: Fold)
    ensures StatusValuesIn(root, fold) != {} <==> HoldsStatus(root, fold)
  {
    if StatusValuesIn(root, fold) != {} {
      var s :| s in StatusValuesIn(root, fold);
      ValuesExact(root, s, fold);
    }
    if path, s :| At(root, path) == Some(JString(s)) && IsStatus(s, fold) {
      StatusFound(root, path, s, fold);
    }
  }

  ghost predicate IsFirstFailure(e: ProposalError, fails: ProposalError -> bool) {
    fails(e) && forall f | ErrorRank(f) < ErrorRank(e) :: !fails(f)
  }

  ghost function ResponseFailures(content: string, fold: Fold): ProposalError -> bool {
    e => ResponseFails(e, content, fold)
  }

  lemma FirstOfFive(fails: ProposalError -> bool)
    requires forall e | ErrorRank(e) > 5 :: !fails(e)
    ensures fails(NotJson) ==> IsFirstFailure(NotJson, fails)
    ensures !fails(NotJson) && fails(RootNotObject) ==> IsFirstFailure(RootNotObject, fails)
    ensures !fails(NotJson) && !fails(RootNotObject) && fails(UnexpectedRootKeys) ==>
              IsFirstFailure(UnexpectedRootKeys, fails)
    ensures !fails(NotJson) && !fails(RootNotObject) && !fails(UnexpectedRootKeys) && fails(AuthorityFields) ==>
              IsFirstFailure(AuthorityFields, fails)
    ensures (!fails(NotJson) && !fails(RootNotObject) && !fails(UnexpectedRootKeys) && !fails(AuthorityFields)
             && fails(StatusValues)) ==> IsFirstFailure(StatusValues, fails)
  {
  }

  lemma NoneOfFive(fails: ProposalError -> bool)
    requires forall e | ErrorRank(e) > 5 :: !fails(e)
    requires !fails(NotJson) && !fails(RootNotObject) && !fails(UnexpectedRootKeys) && !fails(AuthorityFields)
    requires !fails(StatusValues)
    ensures forall e :: !fails(e)
  {
    forall e ensures !fails(e) {
      match e
      case NotJson =>
      case _ =>
    }
  }

  /** What the five checks read of a root object. */
  lemma ObjectFailures(content: string, fold: Fold)
    requires Loads(content, false).Some? && Loads(content, false).value.JObject?
    ensures var root, fails := Loads(content, false).value, ResponseFailures(content, fold);
            && !fails(NotJson) && !fails(RootNotObject)
            && (fails(UnexpectedRootKeys) <==> root.fields.Keys - ROOT_KEYS != {})
            && (fails(AuthorityFields) <==> ForbiddenKeys(root, fold) != {})
            && (fails(StatusValues) <==> StatusValuesIn(root, fold) != {})
  {
    var root := Loads(content, false).value;
    KeyScanExact(root, fold);
    ValueScanExact(root, fold);
    RootKeysExact(root);
  }

  lemma OutcomeOfParsing(content: string, fold: Fold)
    ensures var fails := ResponseFailures(content, fold);
            match ParsePayload(content, fold)
            case Ok(root) => Loads(content, false) == Some(root) && forall e :: !fails(e)
            case Err(e) => IsFirstFailure(e, fails)
  {
    var fails := ResponseFailures(content, fold);
    assert forall e | ErrorRank(e) > 5 :: !fails(e);
    FirstOfFive(fails);
    if Loads(content, false).Some? && Loads(content, false).value.JObject? {
      ObjectFailures(content, fold);
      if ParsePayload(content, fold).Ok? {
        NoneOfFive(fails);
      }
    }
  }

  /** The refusal of a response is the first of the five that applies. */
  lemma ParseErrorExact(content: string, fold: Fold, e: ProposalError)
    ensures ParsePayload(content, fold) == Err(e) <==> IsFirstFailure(e, ResponseFailures(content, fold))
  {
    OutcomeOfParsing(content, fold);
    if IsFirstFailure(e, ResponseFailures(content, fold)) && ParsePayload(content, fold).Err? {
      OnlyOneFirst(e, ParsePayload(content, fold).error, ResponseFailures(content, fold));
    }
  }

  lemma OnlyOneFirst(e: ProposalError, f: ProposalError, fails: ProposalError -> bool)
    requires IsFirstFailure(e, fails) && IsFirstFailure(f, fails)
    ensures e == f
  {
    if ErrorRank(e) == ErrorRank(f) {
      RankInjective(e, f);
    }
  }

  /** What each refusal says of an assertion. */
  ghost predicate AssertionFails(e: ProposalError, item: Json) {
    match e
    case AssertionNotObject => !item.JObject?
    case AssertionUnexpectedFields =>
      exists key :: Field(item, key).Some? && key !in ["slot", "proposed_value", "proposed_source_quote",
                                                       "proposed_material_qualifiers"]
    case AssertionMissingFields =>
      item.JObject? && (Field(item, "slot").None? || Field(item, "proposed_value").None?
                        || Field(item, "proposed_source_quote").None?)
    case InvalidSlot => item.JObject? && (TextField(item, "slot").None? || TextField(item, "slot").value !in SLOTS)
    case ValueNotText => item.JObject? && NullableField(item, "proposed_value").None?
    case QuoteNotText => item.JObject? && NullableField(item, "proposed_source_quote").None?
    case InvalidForce =>
      TextField(item, "slot") == Some("normative_force")
      && exists w :: TextField(item, "proposed_value") == Some(w) && w !in FORCES
    case QualifiersNotTexts =>
      exists v :: Field(item, "proposed_material_qualifiers") == Some(v)
                  && !(v.JArray? && forall k | 0 <= k < |v.items| :: v.items[k].JString?)
    case _ => false
  }

  ghost function AssertionFailures(item: Json): ProposalError -> bool {
    e => AssertionFails(e, item)
  }

  lemma TextsAre(v: Json)
    ensures Texts(v) <==> v.JArray? && forall k | 0 <= k < |v.items| :: v.items[k].JString?
  {
    if v.JArray? && forall k | 0 <= k < |v.items| :: v.items[k].JString? {
      forall i | i in v.items ensures i.JString? {
        var k :| 0 <= k < |v.items| && v.items[k] == i;
      }
    }
  }

  lemma AssertionKeysExact(item: Json)
    requires item.JObject?
    ensures item.fields.Keys - (REQUIRED_KEYS + {QUALIFIERS}) != {} <==> AssertionFails(AssertionUnexpectedFields, item)
    ensures REQUIRED_KEYS - item.fields.Keys != {} <==> AssertionFails(AssertionMissingFields, item)
  {
    if item.fields.Keys - (REQUIRED_KEYS + {QUALIFIERS}) != {} {
      var key :| key in item.fields.Keys - (REQUIRED_KEYS + {QUALIFIERS});
      assert Field(item, key).Some?;
    }
    if key :| Field(item, key).Some? && key !in ["slot", "proposed_value", "proposed_source_quote",
                                                 "proposed_material_qualifiers"] {
      assert key in item.fields.Keys - (REQUIRED_KEYS + {QUALIFIERS});
    }
    NothingMissing(REQUIRED_KEYS, item.fields.Keys);
  }

  lemma OutcomeOfKeys(item: Json)
    requires || !item.JObject? || AssertionFails(AssertionUnexpectedFields, item)
             || AssertionFails(AssertionMissingFields, item)
    ensures AssertionError(item).Some? && IsFirstFailure(AssertionError(item).value, AssertionFailures(item))
  {
    if item.JObject? {
      AssertionKeysExact(item);
    }
  }

  lemma OutcomeOfFields(item: Json)
    requires item.JObject? && REQUIRED_KEYS <= item.fields.Keys
    ensures match FieldError(item)
            case None => forall e | ErrorRank(e) > 10 :: !AssertionFails(e, item)
            case Some(e) =>
              && ErrorRank(e) > 10 && AssertionFails(e, item)
              && forall f | 10 < ErrorRank(f) < ErrorRank(e) :: !AssertionFails(f, item)
  {
    if QUALIFIERS in item.fields {
      TextsAre(item.fields[QUALIFIERS]);
    }
  }

  lemma EarlyAssertionRanks(item: Json)
    ensures forall e | ErrorRank(e) <= 10 && AssertionFails(e, item) ::
              e == AssertionNotObject || e == AssertionUnexpectedFields || e == AssertionMissingFields
  {
  }

  lemma OutcomeOfAssertion(item: Json)
    ensures match AssertionError(item)
            case None => forall e :: !AssertionFails(e, item)
            case Some(e) => IsFirstFailure(e, AssertionFailures(item))
  {
    if || !item.JObject? || AssertionFails(AssertionUnexpectedFields, item)
       || AssertionFails(AssertionMissingFields, item)
    {
      OutcomeOfKeys(item);
    } else {
      AssertionKeysExact(item);
      NothingMissing(REQUIRED_KEYS, item.fields.Keys);
      OutcomeOfFields(item);
      EarlyAssertionRanks(item);
    }
  }

  /** The complaint about an assertion is the first of the eight that applies. */
  lemma AssertionFirstFailure(item: Json, e: ProposalError)
    ensures AssertionError(item) == Some(e) <==> IsFirstFailure(e, AssertionFailures(item))
  {
    OutcomeOfAssertion(item);
    if IsFirstFailure(e, AssertionFailures(item)) && AssertionError(item).Some? {
      OnlyOneFirst(e, AssertionError(item).value, AssertionFailures(item));
    }
  }

  /** What each refusal says of a reference. */
  ghost predicate ReferenceFails(e: ProposalError, item: Json) {
    match e
    case ReferenceNotObject => !item.JObject?
    case ReferenceWrongFields =>
      item.JObject? && !forall key :: Field(item, key).Some? <==> key == "reference_text" || key == "reference_kind"
    case BlankReference =>
      item.JObject? && !exists t :: TextField(item, "reference_text") == Some(t) && exists c :: c in t && !IsSpace(c)
    case InvalidReferenceKind =>
      item.JObject? && !exists kind :: TextField(item, "reference_kind") == Some(kind) && kind in REFERENCE_KINDS
    case _ => false
  }

  ghost function ReferenceFailures(item: Json): ProposalError -> bool {
    e => ReferenceFails(e, item)
  }

  lemma ReferenceKeysExact(item: Json)
    requires item.JObject?
    ensures item.fields.Keys == REFERENCE_KEYS <==> !ReferenceFails(ReferenceWrongFields, item)
  {
    if forall key :: Field(item, key).Some? <==> key == "reference_text" || key == "reference_kind" {
      forall key ensures key in item.fields.Keys <==> key in REFERENCE_KEYS {
        assert Field(item, key).Some? <==> key == "reference_text" || key == "reference_kind";
      }
    }
  }

  lemma OutcomeOfReference(item: Json)
    ensures match ReferenceError(item)
            case None => forall e :: !ReferenceFails(e, item)
            case Some(e) => IsFirstFailure(e, ReferenceFailures(item))
  {
    if item.JObject? {
      ReferenceKeysExact(item);
      if item.fields.Keys == REFERENCE_KEYS {
        ReferenceFieldsExact(item);
      }
    }
  }

  lemma ReferenceFieldsExact(item: Json)
    requires item.JObject? && item.fields.Keys == REFERENCE_KEYS
    ensures var text, kind := item.fields["reference_text"], item.fields["reference_kind"];
            && (ReferenceFails(BlankReference, item) <==> !text.JString? || Blank(text.s))
            && (ReferenceFails(InvalidReferenceKind, item) <==> !kind.JString? || kind.s !in REFERENCE_KINDS)
  {
    var text, kind := item.fields["reference_text"], item.fields["reference_kind"];
    if text.JString? {
      assert TextField(item, "reference_text") == Some(text.s);
    }
    if kind.JString? {
      assert TextField(item, "reference_kind") == Some(kind.s);
    }
  }

  /** The complaint about a reference is the first of the four that applies. */
  lemma ReferenceFirstFailure(item: Json, e: ProposalError)
    ensures ReferenceError(item) == Some(e) <==> IsFirstFailure(e, ReferenceFailures(item))
  {
    OutcomeOfReference(item);
    if IsFirstFailure(e, ReferenceFailures(item)) && ReferenceError(item).Some? {
      OnlyOneFirst(e, ReferenceError(item).value, ReferenceFailures(item));
    }
  }

  /** The k-th item is the first about which there is a complaint, and `e` is what is said of it. */
  ghost predicate FirstComplaint(items: seq<Json>, k: nat, e: ProposalError, check: Json -> Option<ProposalError>) {
    k < |items| && check(items[k]) == Some(e) && forall j | 0 <= j < k :: check(items[j]).None?
  }

  lemma {:induction false} FirstErrorIs(items: seq<Json>, check: Json -> Option<ProposalError>, e: ProposalError)
    ensures FirstError(items, check) == Some(e) <==> exists k :: FirstComplaint(items, k, e, check)
  {
    if k :| FirstComplaint(items, k, e, check) {
      FirstErrorAt(items, check, k);
    }
    if FirstError(items, check) == Some(e) {
      var k := ComplaintAt(items, check, e);
    }
  }

  lemma {:induction false} ComplaintAt(items: seq<Json>, check: Json -> Option<ProposalError>, e: ProposalError)
    returns (k: nat)
    requires FirstError(items, check) == Some(e)
    ensures FirstComplaint(items, k, e, check)
  {
    if check(items[0]).Some? {
      k := 0;
    } else {
      k := ComplaintAt(items[1..], check, e);
      assert forall j | 0 < j <= k :: items[j] == items[1..][j - 1];
      k := k + 1;
    }
  }

  /** Both arrays are checked before any item, every assertion before any reference, and items in index order. */
  lemma PayloadErrorExact(parsed: Json, e: ProposalError)
    requires parsed.JObject?
    ensures var a, r := ArrayOr(parsed, "proposed_assertions"), ArrayOr(parsed, "proposed_unresolved_references");
            PayloadOf(parsed) == Err(e) <==>
              if !a.JArray? then e == AssertionsNotArray
              else if !r.JArray? then e == ReferencesNotArray
              else
                || (exists k :: FirstComplaint(a.items, k, e, AssertionError))
                || ((forall i | i in a.items :: WellFormedAssertion(i))
                    && exists k :: FirstComplaint(r.items, k, e, ReferenceError))
  {
    var a, r := ArrayOr(parsed, "proposed_assertions"), ArrayOr(parsed, "proposed_unresolved_references");
    if a.JArray? && r.JArray? {
      FirstErrorIs(a.items, AssertionError, e);
      FirstErrorIs(r.items, ReferenceError, e);
      FirstErrorExact(a.items, AssertionError);
      forall i ensures AssertionError(i).None? <==> WellFormedAssertion(i) {
        AssertionErrorExact(i);
      }
    }
  }

  // ---------------------------------------------------------------- identity and envelope

  datatype Binding = Binding(receiptId: string, unitId: string, projectionDigest: string)

  const PROPOSAL_SCHEMA := "OIC-INTERPRETATION-PROPOSAL-v0.1"

  const PROPOSER_KINDS: set<string> := {"MODEL", "HUMAN", "DETERMINISTIC_RULE"}

  function Projection(b: Binding, proposerId: string, p: Payload): Json {
    JObject(map[
      "proposal_schema" := JString(PROPOSAL_SCHEMA),
      "admission_receipt_id" := JString(b.receiptId),
      "candidate_projection_digest" := JString(b.projectionDigest),
      "candidate_unit_id" := JString(b.unitId),
      "payload" := PayloadJson(p),
      "proposer_id" := JString(proposerId)])
  }

  /** `proposal_identity`, without its truncation to 24 characters. */
  function ProposalId(b: Binding, proposerId: string, p: Payload, sha256: Bytes -> string): string {
    "iip-" + sha256(CanonicalBytes(Projection(b, proposerId, p)))
  }

  lemma ProjectionFields(b: Binding, proposerId: string, p: Payload)
    ensures var v := Projection(b, proposerId, p);
            && TextField(v, "proposer_id") == Some(proposerId) && Field(v, "payload") == Some(PayloadJson(p))
            && TextField(v, "candidate_unit_id") == Some(b.unitId)
            && TextField(v, "candidate_projection_digest") == Some(b.projectionDigest)
            && TextField(v, "admission_receipt_id") == Some(b.receiptId)
  {
  }

  lemma PayloadFields(p: Payload)
    ensures ArrayField(PayloadJson(p), "proposed_assertions") == Some(p.assertions)
    ensures ArrayField(PayloadJson(p), "proposed_unresolved_references") == Some(p.references)
  {
  }

  /** Proposal identity: any change to the binding, the proposer or the payload, even of order, changes it. */
  lemma ProposalIdBinds(b1: Binding, proposer1: string, p1: Payload, b2: Binding, proposer2: string, p2: Payload,
                        sha256: Bytes -> string)
    requires Injective(sha256) && ProposalId(b1, proposer1, p1, sha256) == ProposalId(b2, proposer2, p2, sha256)
    ensures b1 == b2 && proposer1 == proposer2 && p1 == p2
  {
    var v, w := Projection(b1, proposer1, p1), Projection(b2, proposer2, p2);
    PrefixInjective("iip-", sha256(CanonicalBytes(v)), sha256(CanonicalBytes(w)));
    CanonicalInjective(v, w);
    ProjectionFields(b1, proposer1, p1);
    ProjectionFields(b2, proposer2, p2);
    PayloadFields(p1);
    PayloadFields(p2);
  }

  datatype EnvelopeError = UnsupportedProposerKind | BlankProposer

  function Proposer(kind: string, proposerId: string): Json {
    JObject(map["proposer_kind" := JString(kind), "proposer_id" := JString(proposerId)])
  }

  function EnvelopeFields(b: Binding, kind: string, proposerId: string, p: Payload, sha256: Bytes -> string)
    : map<string, Json>
  {
    map[
      "proposal_schema_id" := JString(PROPOSAL_SCHEMA),
      "candidate_unit_id" := JString(b.unitId),
      "candidate_projection_digest" := JString(b.projectionDigest),
      "proposer" := Proposer(kind, proposerId),
      "epistemic_state" := JString("uncertain"),
      "proposal_state" := JString("PROVISIONAL"),
      "admission_receipt_id" := JString(b.receiptId),
      "proposal_id" := JString(ProposalId(b, proposerId, p, sha256)),
      "proposed_assertions" := JArray(p.assertions)]
  }

  function Envelope(b: Binding, kind: string, proposerId: string, p: Payload, sha256: Bytes -> string): Json {
    var fields := EnvelopeFields(b, kind, proposerId, p, sha256);
    JObject(if p.references == [] then fields else fields["proposed_unresolved_references" := JArray(p.references)])
  }

  datatype Contents = Contents(binding: Binding, kind: string, proposerId: string, payload: Payload)

  /** What an envelope is about, read from its JSON alone. */
  function Opened(envelope: Json): Option<Contents> {
    var receiptId :- TextField(envelope, "admission_receipt_id");
    var unitId :- TextField(envelope, "candidate_unit_id");
    var digest :- TextField(envelope, "candidate_projection_digest");
    var proposer :- Field(envelope, "proposer");
    var kind :- TextField(proposer, "proposer_kind");
    var proposerId :- TextField(proposer, "proposer_id");
    match (ArrayOr(envelope, "proposed_assertions"), ArrayOr(envelope, "proposed_unresolved_references"))
    case (JArray(assertions), JArray(references)) =>
      Some(Contents(Binding(receiptId, unitId, digest), kind, proposerId, Payload(assertions, references)))
    case _ => None
  }

  /** A built envelope is provisional, and its identifier recomputes from what it holds. */
  ghost predicate Sealed(envelope: Json, sha256: Bytes -> string) {
    && TextField(envelope, "epistemic_state") == Some("uncertain")
    && TextField(envelope, "proposal_state") == Some("PROVISIONAL")
    && Opened(envelope).Some?
    && var c := Opened(envelope).value;
       TextField(envelope, "proposal_id") == Some(ProposalId(c.binding, c.proposerId, c.payload, sha256))
  }

  /** `build_proposal_envelope`: the references key is added only when there are references. */
  method BuildEnvelope(b: Binding, kind: string, proposerId: string, p: Payload, sha256: Bytes -> string)
    returns (r: Result<Json, EnvelopeError>)
    ensures r == Err(UnsupportedProposerKind) <==> kind !in PROPOSER_KINDS
    ensures r == Err(BlankProposer) <==> kind in PROPOSER_KINDS && Blank(proposerId)
    ensures r.Ok? ==>
              && Opened(r.value) == Some(Contents(b, kind, proposerId, p)) && Sealed(r.value, sha256)
              && (Field(r.value, "proposed_unresolved_references").Some? <==> p.references != [])
              && r.value == Envelope(b, kind, proposerId, p, sha256)
  {
    if kind !in PROPOSER_KINDS {
      return Err(UnsupportedProposerKind);
    }
    if Blank(proposerId) {
      return Err(BlankProposer);
    }
    EnvelopeOpens(b, kind, proposerId, p, sha256);
    var fields := EnvelopeFields(b, kind, proposerId, p, sha256);
    if p.references != [] {
      fields := fields["proposed_unresolved_references" := JArray(p.references)];
    }
    return Ok(JObject(fields));
  }

  lemma ProposerFields(kind: string, proposerId: string)
    ensures var v := Proposer(kind, proposerId);
            TextField(v, "proposer_kind") == Some(kind) && TextField(v, "proposer_id") == Some(proposerId)
  {
  }

  lemma BindingFields(b: Binding, kind: string, proposerId: string, p: Payload, sha256: Bytes -> string)
    ensures var v := Envelope(b, kind, proposerId, p, sha256);
            && TextField(v, "admission_receipt_id") == Some(b.receiptId)
            && TextField(v, "candidate_unit_id") == Some(b.unitId)
            && TextField(v, "candidate_projection_digest") == Some(b.projectionDigest)
            && Field(v, "proposer") == Some(Proposer(kind, proposerId))
  {
  }

  lemma StateFields(b: Binding, kind: string, proposerId: string, p: Payload, sha256: Bytes -> string)
    ensures var v := Envelope(b, kind, proposerId, p, sha256);
            && TextField(v, "epistemic_state") == Some("uncertain")
            && TextField(v, "proposal_state") == Some("PROVISIONAL")
            && TextField(v, "proposal_id") == Some(ProposalId(b, proposerId, p, sha256))
            && (Field(v, "proposed_unresolved_references").Some? <==> p.references != [])
  {
    NoReferencesField(b, kind, proposerId, p, sha256);
  }

  /** Opening an envelope gives back what it was built from, so two equal envelopes have equal contents. */
  lemma EnvelopeOpens(b: Binding, kind: string, proposerId: string, p: Payload, sha256: Bytes -> string)
    ensures var v := Envelope(b, kind, proposerId, p, sha256);
            && Opened(v) == Some(Contents(b, kind, proposerId, p)) && Sealed(v, sha256)
            && (Field(v, "proposed_unresolved_references").Some? <==> p.references != [])
  {
    ProposerFields(kind, proposerId);
    BindingFields(b, kind, proposerId, p, sha256);
    StateFields(b, kind, proposerId, p, sha256);
    EnvelopeKeepsPayload(b, kind, proposerId, p, sha256);
  }

  lemma NoReferencesField(b: Binding, kind: string, proposerId: string, p: Payload, sha256: Bytes -> string)
    ensures "proposed_unresolved_references" !in EnvelopeFields(b, kind, proposerId, p, sha256)
  {
  }

  /** Leaving out an empty list loses nothing: the payload is read back from the envelope as it went in. */
  lemma EnvelopeKeepsPayload(b: Binding, kind: string, proposerId: string, p: Payload, sha256: Bytes -> string)
    ensures var envelope := Envelope(b, kind, proposerId, p, sha256);
            && ArrayOr(envelope, "proposed_assertions") == JArray(p.assertions)
            && ArrayOr(envelope, "proposed_unresolved_references") == JArray(p.references)
            && (PayloadOf(PayloadJson(p)) == Ok(p) ==> PayloadOf(envelope) == Ok(p))
  {
    NoReferencesField(b, kind, proposerId, p, sha256);
    PayloadFields(p);
  }

  /** The members of what a proposal identifier digests. */
  ghost predicate Projects(v: Json, b: Binding, proposerId: string, p: Payload) {
    && v.JObject? && v.fields.Keys == {"proposal_schema", "admission_receipt_id", "candidate_projection_digest",
                                       "candidate_unit_id", "payload", "proposer_id"}
    && TextField(v, "proposal_schema") == Some("OIC-INTERPRETATION-PROPOSAL-v0.1")
    && TextField(v, "admission_receipt_id") == Some(b.receiptId)
    && TextField(v, "candidate_projection_digest") == Some(b.projectionDigest)
    && TextField(v, "candidate_unit_id") == Some(b.unitId) && TextField(v, "proposer_id") == Some(proposerId)
    && Field(v, "payload").Some? && Carries(Field(v, "payload").value, p)
  }

  /** The two arrays of a payload, and nothing else. */
  ghost predicate Carries(v: Json, p: Payload) {
    && v.JObject? && v.fields.Keys == {"proposed_assertions", "proposed_unresolved_references"}
    && ArrayField(v, "proposed_assertions") == Some(p.assertions)
    && ArrayField(v, "proposed_unresolved_references") == Some(p.references)
  }

  lemma ProjectionProjects(b: Binding, proposerId: string, p: Payload)
    ensures Projects(Projection(b, proposerId, p), b, proposerId, p)
  {
  }

  /** The members of an envelope that say what it binds and who proposed it. */
  ghost predicate EnvelopeBinds(v: Json, b: Binding, kind: string, proposerId: string) {
    && TextField(v, "proposal_schema_id") == Some("OIC-INTERPRETATION-PROPOSAL-v0.1")
    && TextField(v, "admission_receipt_id") == Some(b.receiptId)
    && TextField(v, "candidate_projection_digest") == Some(b.projectionDigest)
    && TextField(v, "candidate_unit_id") == Some(b.unitId)
    && Field(v, "proposer").Some?
    && TextField(Field(v, "proposer").value, "proposer_kind") == Some(kind)
    && TextField(Field(v, "proposer").value, "proposer_id") == Some(proposerId)
  }

  lemma SchemaField(b: Binding, kind: string, proposerId: string, p: Payload, sha256: Bytes -> string)
    ensures var v := Envelope(b, kind, proposerId, p, sha256);
            && TextField(v, "proposal_schema_id") == Some("OIC-INTERPRETATION-PROPOSAL-v0.1")
            && ArrayField(v, "proposed_assertions") == Some(p.assertions)
  {
  }

  /** What an envelope binds, and that its identifier digests the binding, the proposer and the whole payload. */
  lemma EnvelopeSays(b: Binding, kind: string, proposerId: string, p: Payload, sha256: Bytes -> string)
    ensures var v := Envelope(b, kind, proposerId, p, sha256);
            EnvelopeBinds(v, b, kind, proposerId) && ArrayField(v, "proposed_assertions") == Some(p.assertions)
    ensures exists projection ::
              && Projects(projection, b, proposerId, p)
              && TextField(Envelope(b, kind, proposerId, p, sha256), "proposal_id")
                 == Some("iip-" + sha256(Encode(Print(projection))))
  {
    ProposerFields(kind, proposerId);
    BindingFields(b, kind, proposerId, p, sha256);
    SchemaField(b, kind, proposerId, p, sha256);
    StateFields(b, kind, proposerId, p, sha256);
    ProjectionProjects(b, proposerId, p);
  }
}
