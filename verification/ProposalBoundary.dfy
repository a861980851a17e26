/**
 The interpretation-proposal boundary: the any-depth scans for authority keys and status values, and the
 structural contract of a proposal payload.
 */
module ProposalBoundary {
  import opened Outcomes
  import opened Text
  import opened Json
  import opened JsonPath
  import opened Grounding

  datatype ProposalError =
    | NotJson
    | RootNotObject
    | UnexpectedRootKeys
    | AuthorityFields
    | StatusValues
    | AssertionsNotArray
    | ReferencesNotArray
    | AssertionNotObject
    | AssertionUnexpectedFields
    | AssertionMissingFields
    | InvalidSlot
    | ValueNotText
    | QuoteNotText
    | InvalidForce
    | QualifiersNotTexts
    | ReferenceNotObject
    | ReferenceWrongFields
    | BlankReference
    | InvalidReferenceKind

  const ROOT_KEYS: set<string> := {"proposed_assertions", "proposed_unresolved_references"}

  const REQUIRED_KEYS: set<string> := {"slot", "proposed_value", "proposed_source_quote"}

  const QUALIFIERS := "proposed_material_qualifiers"

  const REFERENCE_KEYS: set<string> := {"reference_text", "reference_kind"}

  const SLOTS: set<string> := {
    "normative_force", "bearer", "action", "object", "counterparty", "condition", "exception", "temporal_qualifier",
    "quantum", "definiendum", "definiens"}

  const FORCES: set<string> :=
    {"OBLIGATION", "PROHIBITION", "PERMISSION", "CONSTITUTIVE_DEFINITION", "DELEGATION", "ADVISORY"}

  const REFERENCE_KINDS: set<string> := {"INTERNAL_PROVISION", "EXTERNAL_DOCUMENT", "DEFINITION", "UNCLASSIFIED"}

  const FORBIDDEN_KEYS: set<string> := {
    "admission_receipt_id", "admission_state", "admitted", "allow", "authority", "authorization", "canonical",
    "candidate_unit_id", "confidence", "deny", "enforceability", "epistemic_state", "established",
    "interpretation_basis", "interpretation_evidence", "interpretation_evidence_refs", "interpretation_status",
    "ir_unit_id", "legal_effect", "probability", "proposal_id", "proposal_state", "runtime_outcome", "score",
    "semantic_equivalence_key", "verdict", "warrant"}

  const STATUS_TOKENS: set<string> := {"established", "ambiguous", "not_established", "not_applicable"}

  // ---------------------------------------------------------------- the scans

  function StripLeft(s: string): string {
    if s != [] && IsSpace(s[0]) then StripLeft(s[1..]) else s
  }

  function StripRight(s: string): string {
    if s != [] && IsSpace(s[|s| - 1]) then StripRight(s[..|s| - 1]) else s
  }

  /** `s.strip()` */
  function Strip(s: string): string {
    StripRight(StripLeft(s))
  }

  predicate Trimmed(t: string) {
    t == [] || (!IsSpace(t[0]) && !IsSpace(t[|t| - 1]))
  }

  lemma {:induction false} StripLeftParts(s: string) returns (a: string)
    ensures s == a + StripLeft(s) && Blank(a)
    ensures StripLeft(s) == [] || !IsSpace(StripLeft(s)[0])
  {
    if s != [] && IsSpace(s[0]) {
      var rest := StripLeftParts(s[1..]);
      a := [s[0]] + rest;
    } else {
      a := [];
    }
  }

  lemma {:induction false} StripRightParts(s: string) returns (b: string)
    ensures s == StripRight(s) + b && Blank(b)
    ensures StripRight(s) == [] || !IsSpace(StripRight(s)[|StripRight(s)| - 1])
    decreases |s|
  {
    if s != [] && IsSpace(s[|s| - 1]) {
      var rest := StripRightParts(s[..|s| - 1]);
      b := rest + [s[|s| - 1]];
      assert s == s[..|s| - 1] + [s[|s| - 1]];
    } else {
      b := [];
    }
  }

  lemma {:induction false} StripLeftBlank(a: string, rest: string)
    requires Blank(a)
    ensures StripLeft(a + rest) == StripLeft(rest)
  {
    if a == [] {
      assert a + rest == rest;
    } else {
      assert (a + rest)[1..] == a[1..] + rest && a[0] in a;
      StripLeftBlank(a[1..], rest);
    }
  }

  lemma {:induction false} StripRightBlank(front: string, b: string)
    requires Blank(b)
    ensures StripRight(front + b) == StripRight(front)
    decreases |b|
  {
    if b == [] {
      assert front + b == front;
    } else {
      assert (front + b)[..|front + b| - 1] == front + b[..|b| - 1] && b[|b| - 1] in b;
      StripRightBlank(front, b[..|b| - 1]);
    }
  }

  /** Stripping takes blanks off both ends. */
  lemma StripParts(s: string) returns (a: string, b: string)
    ensures s == a + Strip(s) + b && Blank(a) && Blank(b)
  {
    a := StripLeftParts(s);
    b := StripRightParts(StripLeft(s));
    assert s == a + (Strip(s) + b);
  }

  /** Stripping keeps exactly what stands between blanks and neither begins nor ends with one. */
  lemma StripExact(s: string, t: string)
    ensures Strip(s) == t <==> Trimmed(t) && exists a, b :: s == a + t + b && Blank(a) && Blank(b)
  {
    if Strip(s) == t {
      StripTrims(s);
      var a, b := StripParts(s);
    }
    if Trimmed(t) {
      if a, b :| s == a + t + b && Blank(a) && Blank(b) {
        StripBetween(a, t, b);
      }
    }
  }

  lemma StripTrims(s: string)
    ensures Trimmed(Strip(s))
  {
    var a := StripLeftParts(s);
    var b := StripRightParts(StripLeft(s));
    if Strip(s) != [] {
      assert StripLeft(s)[0] == Strip(s)[0];
    }
  }

  lemma StripBetween(a: string, t: string, b: string)
    requires Trimmed(t) && Blank(a) && Blank(b)
    ensures Strip(a + t + b) == t
  {
    assert a + t + b == a + (t + b);
    StripLeftBlank(a, t + b);
    if t == [] {
      assert t + b == b + [];
      StripLeftBlank(b, []);
    } else {
      assert (t + b)[0] == t[0];
      StripRightBlank(t, b);
    }
  }

  /** An authority key, whatever its case. */
  ghost predicate IsAuthority(key: string, fold: Fold) {
    exists name :: name in FORBIDDEN_KEYS && FoldText(key, fold) == name
  }

  /** One of the four status words, whatever its case, with or without blanks around it. */
  ghost predicate IsStatus(value: string, fold: Fold) {
    exists a, t, b ::
      && value == a + t + b && Blank(a) && Blank(b) && Trimmed(t)
      && (FoldText(t, fold) == "established" || FoldText(t, fold) == "ambiguous"
          || FoldText(t, fold) == "not_established" || FoldText(t, fold) == "not_applicable")
  }

  lemma StatusExact(value: string, fold: Fold)
    ensures StatusToken(value, fold) <==> IsStatus(value, fold)
  {
    if StatusToken(value, fold) {
      StripTrims(value);
      var a, b := StripParts(value);
      assert value == a + Strip(value) + b;
    }
    if IsStatus(value, fold) {
      var a, t, b :| value == a + t + b && Blank(a) && Blank(b) && Trimmed(t)
        && (FoldText(t, fold) == "established" || FoldText(t, fold) == "ambiguous"
            || FoldText(t, fold) == "not_established" || FoldText(t, fold) == "not_applicable");
      StripBetween(a, t, b);
    }
  }

  lemma TokensExact(key: string, value: string, fold: Fold)
    ensures ForbiddenKey(key, fold) <==> IsAuthority(key, fold)
    ensures StatusToken(value, fold) <==> IsStatus(value, fold)
  {
    StatusExact(value, fold);
  }

  predicate ForbiddenKey(key: string, fold: Fold) {
    FoldText(key, fold) in FORBIDDEN_KEYS
  }

  predicate StatusToken(value: string, fold: Fold) {
    FoldText(Strip(value), fold) in STATUS_TOKENS
  }

  /** Every authority key of the document, at any depth. */
  function ForbiddenKeys(v: Json, fold: Fold): set<string>
    decreases v, 1
  {
    match v
    case JObject(fields) => MemberKeys(v, fields.Keys, fold)
    case JArray(items) => ItemKeys(v, |items|, fold)
    case _ => {}
  }

  function MemberKeys(v: Json, keys: set<string>, fold: Fold): set<string>
    requires v.JObject? && keys <= v.fields.Keys
    decreases v, 0
  {
    (set k | k in keys && ForbiddenKey(k, fold)) + (set k, f | k in keys && f in ForbiddenKeys(v.fields[k], fold) :: f)
  }

  function ItemKeys(v: Json, n: nat, fold: Fold): set<string>
    requires v.JArray? && n <= |v.items|
    decreases v, 0
  {
    set i, f | 0 <= i < n && f in ForbiddenKeys(v.items[i], fold) :: f
  }

  /** Every string value of the document that is a status token, at any depth. */
  function StatusValuesIn(v: Json, fold: Fold): set<string>
    decreases v, 1
  {
    match v
    case JString(s) => if StatusToken(s, fold) then {s} else {}
    case JObject(fields) => MemberValues(v, fields.Keys, fold)
    case JArray(items) => ItemValues(v, |items|, fold)
    case _ => {}
  }

  function MemberValues(v: Json, keys: set<string>, fold: Fold): set<string>
    requires v.JObject? && keys <= v.fields.Keys
    decreases v, 0
  {
    set k, f | k in keys && f in StatusValuesIn(v.fields[k], fold) :: f
  }

  function ItemValues(v: Json, n: nat, fold: Fold): set<string>
    requires v.JArray? && n <= |v.items|
    decreases v, 0
  {
    set i, f | 0 <= i < n && f in StatusValuesIn(v.items[i], fold) :: f
  }

  ghost predicate KeyAt(v: Json, path: Position, key: string) {
    At(v, path).Some? && At(v, path).value.JObject? && key in At(v, path).value.fields
  }

  lemma {:induction false} KeyFound(v: Json, path: Position, key: string, fold: Fold)
    requires KeyAt(v, path, key) && ForbiddenKey(key, fold)
    ensures key in ForbiddenKeys(v, fold)
    decreases |path|
  {
    if path != [] {
      KeyFound(Child(v, path[0]).value, path[1..], key, fold);
      match path[0]
      case Key(k) => assert k in v.fields && key in ForbiddenKeys(v.fields[k], fold);
      case Index(i) => assert 0 <= i < |v.items| && key in ForbiddenKeys(v.items[i], fold);
    }
  }

  lemma KeyBelow(v: Json, step: Step, path: Position, key: string)
    requires Child(v, step).Some? && KeyAt(Child(v, step).value, path, key)
    ensures KeyAt(v, [step] + path, key)
  {
    AtUnder(v, step, path);
  }

  lemma {:induction false} KeyPlaced(v: Json, key: string, fold: Fold) returns (path: Position)
    requires key in ForbiddenKeys(v, fold)
    ensures KeyAt(v, path, key) && ForbiddenKey(key, fold)
  {
    if v.JObject? {
      if key in v.fields && ForbiddenKey(key, fold) {
        path := [];
      } else {
        var k :| k in v.fields && key in ForbiddenKeys(v.fields[k], fold);
        path := KeyPlaced(v.fields[k], key, fold);
        KeyBelow(v, Key(k), path, key);
        path := [Key(k)] + path;
      }
    } else {
      var i :| 0 <= i < |v.items| && key in ForbiddenKeys(v.items[i], fold);
      path := KeyPlaced(v.items[i], key, fold);
      KeyBelow(v, Index(i), path, key);
      path := [Index(i)] + path;
    }
  }

  /** The key scan reports a key exactly when it is an authority key of some object at some depth. */
  lemma KeysExact(v: Json, key: string, fold: Fold)
    ensures key in ForbiddenKeys(v, fold) <==> IsAuthority(key, fold) && exists path :: KeyAt(v, path, key)
  {
    TokensExact(key, "", fold);
    if key in ForbiddenKeys(v, fold) {
      var path := KeyPlaced(v, key, fold);
    }
    if path :| KeyAt(v, path, key) {
      if ForbiddenKey(key, fold) {
        KeyFound(v, path, key, fold);
      }
    }
  }

  lemma {:induction false} ValueFound(v: Json, path: Position, s: string, fold: Fold)
    requires At(v, path) == Some(JString(s)) && StatusToken(s, fold)
    ensures s in StatusValuesIn(v, fold)
    decreases |path|
  {
    if path != [] {
      ValueFound(Child(v, path[0]).value, path[1..], s, fold);
      match path[0]
      case Key(k) => assert k in v.fields && s in StatusValuesIn(v.fields[k], fold);
      case Index(i) => assert 0 <= i < |v.items| && s in StatusValuesIn(v.items[i], fold);
    }
  }

  lemma {:induction false} ValuePlaced(v: Json, s: string, fold: Fold) returns (path: Position)
    requires s in StatusValuesIn(v, fold)
    ensures At(v, path) == Some(JString(s)) && StatusToken(s, fold)
  {
    if v.JString? {
      path := [];
    } else if v.JObject? {
      var k :| k in v.fields && s in StatusValuesIn(v.fields[k], fold);
      path := ValuePlaced(v.fields[k], s, fold);
      AtUnder(v, Key(k), path);
      path := [Key(k)] + path;
    } else {
      var i :| 0 <= i < |v.items| && s in StatusValuesIn(v.items[i], fold);
      path := ValuePlaced(v.items[i], s, fold);
      AtUnder(v, Index(i), path);
      path := [Index(i)] + path;
    }
  }

  lemma StatusFound(v: Json, path: Position, s: string, fold: Fold)
    requires At(v, path) == Some(JString(s)) && IsStatus(s, fold)
    ensures s in StatusValuesIn(v, fold)
  {
    TokensExact("", s, fold);
    ValueFound(v, path, s, fold);
  }

  /** The value scan reports a string exactly when it is a status word standing as a value at some depth. */
  lemma ValuesExact(v: Json, s: string, fold: Fold)
    ensures s in StatusValuesIn(v, fold) <==> IsStatus(s, fold) && exists path :: At(v, path) == Some(JString(s))
  {
    if s in StatusValuesIn(v, fold) {
      var path := ValuePlaced(v, s, fold);
      TokensExact("", s, fold);
    }
    if IsStatus(s, fold) {
      if path :| At(v, path) == Some(JString(s)) {
        StatusFound(v, path, s, fold);
      }
    }
  }

  /** One member's own key, if it is an authority key, and what is below it. */
  function KeyAndBelow(v: Json, k: string, fold: Fold): set<string>
    requires v.JObject? && k in v.fields
  {
    (if ForbiddenKey(k, fold) then {k} else {}) + ForbiddenKeys(v.fields[k], fold)
  }

  lemma MemberKeysStep(v: Json, rest: set<string>, k: string, fold: Fold)
    requires v.JObject? && rest <= v.fields.Keys && k in rest
    ensures MemberKeys(v, v.fields.Keys - (rest - {k}), fold) ==
              MemberKeys(v, v.fields.Keys - rest, fold) + KeyAndBelow(v, k, fold)
  {
    assert v.fields.Keys - (rest - {k}) == (v.fields.Keys - rest) + {k};
  }

  lemma MemberKeysEnds(v: Json, fold: Fold)
    requires v.JObject?
    ensures MemberKeys(v, {}, fold) == {} && MemberKeys(v, v.fields.Keys, fold) == ForbiddenKeys(v, fold)
  {
  }

  lemma ItemKeysStep(v: Json, n: nat, fold: Fold)
    requires v.JArray? && n < |v.items|
    ensures ItemKeys(v, n + 1, fold) == ItemKeys(v, n, fold) + ForbiddenKeys(v.items[n], fold)
  {
  }

  lemma MemberValuesStep(v: Json, rest: set<string>, k: string, fold: Fold)
    requires v.JObject? && rest <= v.fields.Keys && k in rest
    ensures MemberValues(v, v.fields.Keys - (rest - {k}), fold) ==
              MemberValues(v, v.fields.Keys - rest, fold) + StatusValuesIn(v.fields[k], fold)
  {
    assert v.fields.Keys - (rest - {k}) == (v.fields.Keys - rest) + {k};
  }

  lemma ItemValuesStep(v: Json, n: nat, fold: Fold)
    requires v.JArray? && n < |v.items|
    ensures ItemValues(v, n + 1, fold) == ItemValues(v, n, fold) + StatusValuesIn(v.items[n], fold)
  {
  }

  lemma CleanMembers(v: Json, fold: Fold)
    requires v.JObject? && forall k | k in v.fields :: !ForbiddenKey(k, fold) && ForbiddenKeys(v.fields[k], fold) == {}
    ensures ForbiddenKeys(v, fold) == {}
  {
  }

  lemma CleanItems(items: seq<Json>, fold: Fold)
    requires forall i | i in items :: ForbiddenKeys(i, fold) == {}
    ensures ForbiddenKeys(JArray(items), fold) == {}
  {
    forall i | 0 <= i < |items| ensures ForbiddenKeys(items[i], fold) == {} {
      assert items[i] in items;
    }
  }

  /** Members without authority keys can be left out of the scan. */
  lemma WithoutCleanMembers(v: Json, names: set<string>, fold: Fold)
    requires v.JObject?
    requires forall k | k in v.fields && k in names :: !ForbiddenKey(k, fold) && ForbiddenKeys(v.fields[k], fold) == {}
    ensures ForbiddenKeys(v, fold) == ForbiddenKeys(JObject(v.fields - names), fold)
  {
    var rest := JObject(v.fields - names);
    assert ForbiddenKeys(v, fold) == MemberKeys(v, v.fields.Keys, fold);
    assert ForbiddenKeys(rest, fold) == MemberKeys(rest, rest.fields.Keys, fold);
    forall f ensures f in ForbiddenKeys(v, fold) <==> f in ForbiddenKeys(rest, fold) {
      if f in ForbiddenKeys(v, fold) && !(f in v.fields && ForbiddenKey(f, fold)) {
        var k :| k in v.fields && f in ForbiddenKeys(v.fields[k], fold);
        assert k in rest.fields;
      }
      if f in ForbiddenKeys(rest, fold) && !(f in rest.fields && ForbiddenKey(f, fold)) {
        var k :| k in rest.fields && f in ForbiddenKeys(rest.fields[k], fold);
        assert k in v.fields;
      }
    }
  }

  lemma Union<T>(before: set<T>, done: set<T>, more: set<T>)
    ensures before + done + more == before + (done + more)
  {
  }

  /** The `found` set the scans add to. */
  class Findings {
    var found: set<string>

    constructor ()
      ensures found == {}
    {
      found := {};
    }

    /** `_forbidden_keys_in` */
    method ScanKeys(v: Json, fold: Fold)
      modifies this
      ensures found == old(found) + ForbiddenKeys(v, fold)
      decreases v, 1
    {
      match v
      case JObject(_) => ScanMemberKeys(v, fold);
      case JArray(_) => ScanItemKeys(v, fold);
      case _ =>
    }

    method ScanMemberKeys(v: Json, fold: Fold)
      requires v.JObject?
      modifies this
      ensures found == old(found) + ForbiddenKeys(v, fold)
      decreases v, 0, 1
    {
      var rest := v.fields.Keys;
      MemberKeysEnds(v, fold);
      assert v.fields.Keys - rest == {};
      while rest != {}
        invariant rest <= v.fields.Keys
        invariant found == old(found) + MemberKeys(v, v.fields.Keys - rest, fold)
        decreases |rest|
      {
        var key :| key in rest;
        MemberKeysStep(v, rest, key, fold);
        Union(old(found), MemberKeys(v, v.fields.Keys - rest, fold), KeyAndBelow(v, key, fold));
        rest := rest - {key};
        ScanMember(v, key, fold);
      }
      assert v.fields.Keys - rest == v.fields.Keys;
    }

    method ScanMember(v: Json, key: string, fold: Fold)
      requires v.JObject? && key in v.fields
      modifies this
      ensures found == old(found) + KeyAndBelow(v, key, fold)
      decreases v, 0, 0
    {
      if ForbiddenKey(key, fold) {
        found := found + {key};
      }
      ScanKeys(v.fields[key], fold);
    }

    method ScanItemKeys(v: Json, fold: Fold)
      requires v.JArray?
      modifies this
      ensures found == old(found) + ForbiddenKeys(v, fold)
      decreases v, 0
    {
      for i := 0 to |v.items|
        invariant found == old(found) + ItemKeys(v, i, fold)
      {
        ItemKeysStep(v, i, fold);
        ScanKeys(v.items[i], fold);
      }
    }

    /** `_forbidden_value_tokens_in` */
    method ScanValues(v: Json, fold: Fold)
      modifies this
      ensures found == old(found) + StatusValuesIn(v, fold)
      decreases v, 1
    {
      match v
      case JString(s) =>
        if StatusToken(s, fold) {
          found := found + {s};
        }
      case JObject(_) => ScanMemberValues(v, fold);
      case JArray(_) => ScanItemValues(v, fold);
      case _ =>
    }

    method ScanMemberValues(v: Json, fold: Fold)
      requires v.JObject?
      modifies this
      ensures found == old(found) + StatusValuesIn(v, fold)
      decreases v, 0
    {
      var rest := v.fields.Keys;
      assert v.fields.Keys - rest == {};
      while rest != {}
        invariant rest <= v.fields.Keys
        invariant found == old(found) + MemberValues(v, v.fields.Keys - rest, fold)
        decreases |rest|
      {
        var key :| key in rest;
        MemberValuesStep(v, rest, key, fold);
        Union(old(found), MemberValues(v, v.fields.Keys - rest, fold), StatusValuesIn(v.fields[key], fold));
        rest := rest - {key};
        ScanValues(v.fields[key], fold);
      }
      assert v.fields.Keys - rest == v.fields.Keys;
    }

    method ScanItemValues(v: Json, fold: Fold)
      requires v.JArray?
      modifies this
      ensures found == old(found) + StatusValuesIn(v, fold)
      decreases v, 0
    {
      for i := 0 to |v.items|
        invariant found == old(found) + ItemValues(v, i, fold)
      {
        ItemValuesStep(v, i, fold);
        ScanValues(v.items[i], fold);
      }
    }
  }
}
