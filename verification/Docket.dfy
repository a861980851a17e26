/** The review docket: proposal sets side by side, their agreement, and every candidate by its identifier. */
module Docket {
  import opened Outcomes
  import opened TextSort
  import opened Utf8
  import opened Digests
  import opened Json
  import opened JsonAccess
  import opened CanonicalGate
  import opened PythonEquality
  import CandidateExtraction

  datatype Extraction = Extraction(
    provider: string, model: string, requestId: Option<string>, candidates: seq<Json>, anchor: Json, rawSha256: string)

  datatype ProposalSet = ProposalSet(
    provider: string, model: string, requestId: Option<string>, candidateIds: seq<string>, setSha256: string,
    rawSha256: string)

  datatype Agreement = NoCandidates | Identical | Divergent

  datatype Docket = Docket(
    docketId: string, anchor: Json, agreement: Agreement, proposals: seq<ProposalSet>,
    candidatesById: map<string, Json>)

  datatype DocketError = NoExtractions | AnchorsDiffer | MissingUnitId | ConflictingContent

  function UnitId(candidate: Json): Option<string> {
    TextField(candidate, "unit_id")
  }

  predicate Identified(candidates: seq<Json>) {
    forall c | c in candidates :: UnitId(c).Some?
  }

  function Ids(candidates: seq<Json>): (ids: seq<string>)
    requires Identified(candidates)
    ensures |ids| == |candidates| && forall k | 0 <= k < |ids| :: Some(ids[k]) == UnitId(candidates[k])
  {
    seq(|candidates|, k requires 0 <= k < |candidates| =>
      assert candidates[k] in candidates; UnitId(candidates[k]).value)
  }

  function SetOf(e: Extraction, sha256: Bytes -> string): ProposalSet
    requires Identified(e.candidates)
  {
    var ids := Sort(Ids(e.candidates));
    ProposalSet(e.provider, e.model, e.requestId, ids, sha256(CanonicalBytes(TextArray(ids))), e.rawSha256)
  }

  predicate AllIdentified(extractions: seq<Extraction>) {
    forall e | e in extractions :: Identified(e.candidates)
  }

  function SetsOf(extractions: seq<Extraction>, sha256: Bytes -> string): seq<ProposalSet>
    requires AllIdentified(extractions)
  {
    seq(|extractions|, k requires 0 <= k < |extractions| =>
      assert extractions[k] in extractions; SetOf(extractions[k], sha256))
  }

  function AgreementOf(proposals: seq<ProposalSet>): Agreement {
    if forall p | p in proposals :: p.candidateIds == [] then NoCandidates
    else if |Fingerprints(proposals)| == 1 then Identical
    else Divergent
  }

  /** The dictionary after these candidates; two contents under one identifier are refused. */
  function Merge(candidates: seq<Json>): Option<map<string, Json>>
    requires Identified(candidates)
  {
    if candidates == [] then Some(map[]) else
    var n := |candidates| - 1;
    assert candidates[n] in candidates && forall c | c in candidates[..n] :: c in candidates;
    var earlier :- Merge(candidates[..n]);
    var id := UnitId(candidates[n]).value;
    if id in earlier && !Equals(earlier[id], candidates[n]) then None else Some(earlier[id := candidates[n]])
  }

  function Flatten(extractions: seq<Extraction>): (all: seq<Json>)
    ensures forall c :: c in all <==> exists e :: e in extractions && c in e.candidates
  {
    if extractions == [] then [] else
    var n := |extractions| - 1;
    assert extractions == extractions[..n] + [extractions[n]];
    Flatten(extractions[..n]) + extractions[n].candidates
  }

  function SetJson(p: ProposalSet): Json {
    JObject(map["provider" := JString(p.provider), "model" := JString(p.model),
      "request_id" := NullableJson(p.requestId), "candidate_ids" := TextArray(p.candidateIds),
      "candidate_set_sha256" := JString(p.setSha256), "raw_content_sha256" := JString(p.rawSha256)])
  }

  /** The docket identifier, without its truncation to 24 characters. */
  function DocketId(anchor: Json, proposals: seq<ProposalSet>, sha256: Bytes -> string): string {
    "docket-" + sha256(CanonicalBytes(DocketPayload(anchor, proposals)))
  }

  /** `build_review_docket`, as a function. */
  function Build(extractions: seq<Extraction>, sha256: Bytes -> string): Result<Docket, DocketError> {
    if extractions == [] then Err(NoExtractions)
    else if exists e | e in extractions :: !Equals(e.anchor, extractions[0].anchor) then Err(AnchorsDiffer)
    else if !AllIdentified(extractions) then Err(MissingUnitId)
    else
      var proposals, anchor := SetsOf(extractions, sha256), extractions[0].anchor;
      match Merge(Flatten(extractions))
      case None => Err(ConflictingContent)
      case Some(byId) =>
        Ok(Docket(DocketId(anchor, proposals, sha256), anchor, AgreementOf(proposals), proposals, byId))
  }

  // ---------------------------------------------------------------- the loops

  /** `_proposal_set` */
  method ProposalSetOf(e: Extraction, sha256: Bytes -> string) returns (r: Result<ProposalSet, DocketError>)
    ensures Identified(e.candidates) ==> r == Ok(SetOf(e, sha256))
    ensures !Identified(e.candidates) ==> r == Err(MissingUnitId)
  {
    var ids: seq<string> := [];
    for k := 0 to |e.candidates|
      invariant Identified(e.candidates[..k]) && ids == Ids(e.candidates[..k])
    {
      var id := UnitId(e.candidates[k]);
      if id.None? {
        assert e.candidates[k] in e.candidates;
        return Err(MissingUnitId);
      }
      ids := ids + [id.value];
      assert e.candidates[..k + 1] == e.candidates[..k] + [e.candidates[k]];
    }
    assert e.candidates[..|e.candidates|] == e.candidates;
    var ordered := Sort(ids);
    var fingerprint := sha256(CanonicalBytes(TextArray(ordered)));
    return Ok(ProposalSet(e.provider, e.model, e.requestId, ordered, fingerprint, e.rawSha256));
  }

  method ProposalSets(extractions: seq<Extraction>, sha256: Bytes -> string)
    returns (r: Result<seq<ProposalSet>, DocketError>)
    ensures AllIdentified(extractions) ==> r == Ok(SetsOf(extractions, sha256))
    ensures !AllIdentified(extractions) ==> r == Err(MissingUnitId)
  {
    var proposals: seq<ProposalSet> := [];
    for k := 0 to |extractions|
      invariant AllIdentified(extractions[..k]) && proposals == SetsOf(extractions[..k], sha256)
    {
      var proposal := ProposalSetOf(extractions[k], sha256);
      assert extractions[k] in extractions;
      assert extractions[..k + 1] == extractions[..k] + [extractions[k]];
      if proposal.Err? {
        return Err(proposal.error);
      }
      proposals := proposals + [proposal.value];
    }
    assert extractions[..|extractions|] == extractions;
    return Ok(proposals);
  }

  lemma {:induction false} ConflictPersists(candidates: seq<Json>, k: nat)
    requires Identified(candidates) && k <= |candidates|
    requires Identified(candidates[..k]) && Merge(candidates[..k]) == None
    ensures Merge(candidates) == None
    decreases |candidates|
  {
    if k == |candidates| {
      assert candidates[..k] == candidates;
    } else {
      var front := candidates[..|candidates| - 1];
      assert front[..k] == candidates[..k];
      ConflictPersists(front, k);
    }
  }

  lemma MergeStep(before: seq<Json>, c: Json)
    requires Identified(before) && UnitId(c).Some?
    ensures Identified(before + [c])
    ensures Merge(before).None? ==> Merge(before + [c]) == None
    ensures Merge(before).Some? ==>
              var m, id := Merge(before).value, UnitId(c).value;
              Merge(before + [c]) == if id in m && !Equals(m[id], c) then None else Some(m[id := c])
  {
    assert (before + [c])[..|before|] == before;
  }

  lemma NextPrefix<T>(earlier: seq<T>, s: seq<T>, k: nat)
    requires k < |s|
    ensures earlier + s[..k] + [s[k]] == earlier + s[..k + 1]
    ensures earlier + s[..k + 1] == (earlier + s)[..|earlier| + k + 1]
  {
  }

  /** The candidates of one extraction, merged into what was merged before. */
  method MergeInto(before: map<string, Json>, ghost earlier: seq<Json>, candidates: seq<Json>)
    returns (r: Option<map<string, Json>>)
    requires Identified(earlier) && Merge(earlier) == Some(before) && Identified(candidates)
    ensures Identified(earlier + candidates) && r == Merge(earlier + candidates)
  {
    var merged := before;
    assert earlier + candidates[..0] == earlier;
    for k := 0 to |candidates|
      invariant Identified(earlier + candidates[..k]) && Merge(earlier + candidates[..k]) == Some(merged)
    {
      var c := candidates[k];
      assert c in candidates;
      var id := UnitId(c).value;
      MergeStep(earlier + candidates[..k], c);
      NextPrefix(earlier, candidates, k);
      if id in merged && !Equals(merged[id], c) {
        ConflictPersists(earlier + candidates, |earlier| + k + 1);
        return None;
      }
      merged := merged[id := c];
    }
    assert candidates[..|candidates|] == candidates;
    return Some(merged);
  }

  lemma {:induction false} FlattenPrefix(extractions: seq<Extraction>, k: nat)
    requires k <= |extractions|
    ensures |Flatten(extractions[..k])| <= |Flatten(extractions)|
    ensures Flatten(extractions)[..|Flatten(extractions[..k])|] == Flatten(extractions[..k])
    decreases |extractions|
  {
    if k == |extractions| {
      assert extractions[..k] == extractions;
    } else {
      var front := extractions[..|extractions| - 1];
      assert front[..k] == extractions[..k];
      FlattenPrefix(front, k);
    }
  }

  /** The nested loops over all extractions. */
  method MergeExtractions(extractions: seq<Extraction>) returns (r: Option<map<string, Json>>)
    requires AllIdentified(extractions)
    ensures r == Merge(Flatten(extractions))
  {
    var merged: map<string, Json> := map[];
    for k := 0 to |extractions|
      invariant Merge(Flatten(extractions[..k])) == Some(merged)
    {
      assert extractions[k] in extractions;
      assert extractions[..k + 1][..k] == extractions[..k];
      assert Flatten(extractions[..k + 1]) == Flatten(extractions[..k]) + extractions[k].candidates;
      var next := MergeInto(merged, Flatten(extractions[..k]), extractions[k].candidates);
      if next.None? {
        FlattenPrefix(extractions, k + 1);
        ConflictPersists(Flatten(extractions), |Flatten(extractions[..k + 1])|);
        return None;
      }
      merged := next.value;
    }
    assert extractions[..|extractions|] == extractions;
    return Some(merged);
  }

  /** `build_review_docket` */
  method BuildReviewDocket(extractions: seq<Extraction>, sha256: Bytes -> string)
    returns (r: Result<Docket, DocketError>)
    ensures r == Build(extractions, sha256)
  {
    if extractions == [] {
      return Err(NoExtractions);
    }
    var anchor := extractions[0].anchor;
    if exists e | e in extractions[1..] :: !Equals(e.anchor, anchor) {
      var e :| e in extractions[1..] && !Equals(e.anchor, anchor);
      assert e in extractions;
      return Err(AnchorsDiffer);
    }
    assert extractions == [extractions[0]] + extractions[1..];
    var proposals := ProposalSets(extractions, sha256);
    if proposals.Err? {
      return Err(proposals.error);
    }
    var merged := MergeExtractions(extractions);
    if merged.None? {
      return Err(ConflictingContent);
    }
    var sets := proposals.value;
    return Ok(Docket(DocketId(anchor, sets, sha256), anchor, AgreementOf(sets), sets, merged.value));
  }

  // ---------------------------------------------------------------- what agreement means

  /** Two fingerprints are equal exactly when the two sets hold the same identifiers equally often. */
  lemma FingerprintExact(e: Extraction, f: Extraction, sha256: Bytes -> string)
    requires Injective(sha256) && Identified(e.candidates) && Identified(f.candidates)
    ensures SetOf(e, sha256).setSha256 == SetOf(f, sha256).setSha256 <==> SameIds(e, f)
  {
    var a, b := Sort(Ids(e.candidates)), Sort(Ids(f.candidates));
    SameSort(Ids(e.candidates), Ids(f.candidates));
    if SetOf(e, sha256).setSha256 == SetOf(f, sha256).setSha256 {
      CanonicalInjective(TextArray(a), TextArray(b));
      TextArrayInjective(a, b);
    }
  }

  lemma SingletonSet<T>(s: set<T>, x: T)
    requires x in s
    ensures |s| == 1 <==> forall y | y in s :: y == x
  {
    if |s| == 1 {
      assert |s - {x}| == 0;
      assert forall y | y in s && y != x :: y in s - {x};
    }
    if forall y | y in s :: y == x {
      assert s == {x};
    }
  }

  function Fingerprints(proposals: seq<ProposalSet>): set<string> {
    set p | p in proposals :: p.setSha256
  }

  lemma FingerprintsAre(extractions: seq<Extraction>, sha256: Bytes -> string, y: string)
    requires AllIdentified(extractions)
    ensures y in Fingerprints(SetsOf(extractions, sha256)) <==>
              exists e :: e in extractions && SetOf(e, sha256).setSha256 == y
  {
    var sets := SetsOf(extractions, sha256);
    if e :| e in extractions && SetOf(e, sha256).setSha256 == y {
      var k :| 0 <= k < |extractions| && extractions[k] == e;
      assert sets[k] in sets && sets[k].setSha256 == y;
    }
    if y in Fingerprints(sets) {
      var p :| p in sets && p.setSha256 == y;
      var k :| 0 <= k < |sets| && sets[k] == p;
      assert extractions[k] in extractions;
    }
  }

  ghost predicate SameIds(e: Extraction, f: Extraction)
    requires Identified(e.candidates) && Identified(f.candidates)
  {
    multiset(Ids(e.candidates)) == multiset(Ids(f.candidates))
  }

  lemma FingerprintsExact(extractions: seq<Extraction>, sha256: Bytes -> string)
    requires Injective(sha256) && AllIdentified(extractions) && extractions != []
    ensures var first := extractions[0];
            first in extractions
            && (|Fingerprints(SetsOf(extractions, sha256))| == 1 <==> forall e | e in extractions :: SameIds(e, first))
  {
    var first := extractions[0];
    assert first in extractions;
    var prints, x := Fingerprints(SetsOf(extractions, sha256)), SetOf(first, sha256).setSha256;
    FingerprintsAre(extractions, sha256, x);
    SingletonSet(prints, x);
    forall e | e in extractions ensures SetOf(e, sha256).setSha256 in prints
                                ensures SetOf(e, sha256).setSha256 == x <==> SameIds(e, first)
    {
      FingerprintsAre(extractions, sha256, SetOf(e, sha256).setSha256);
      FingerprintExact(e, first, sha256);
    }
    forall y | y in prints ensures exists e :: e in extractions && SetOf(e, sha256).setSha256 == y {
      FingerprintsAre(extractions, sha256, y);
    }
  }

  /**
   The agreement state, exactly: nothing was proposed anywhere; or something was and every extraction
   proposed the same identifiers, equally often; or two extractions differ.
   */
  lemma AgreementExact(extractions: seq<Extraction>, sha256: Bytes -> string)
    requires Injective(sha256) && AllIdentified(extractions) && extractions != []
    ensures var agreement := AgreementOf(SetsOf(extractions, sha256));
            var allEmpty := forall e | e in extractions :: e.candidates == [];
            var allSame := forall e, f | e in extractions && f in extractions :: SameIds(e, f);
            && (agreement == NoCandidates <==> allEmpty)
            && (agreement == Identical <==> !allEmpty && allSame)
            && (agreement == Divergent <==> !allSame)
  {
    var sets := SetsOf(extractions, sha256);
    FingerprintsExact(extractions, sha256);
    assert extractions[0] in extractions;
    forall k | 0 <= k < |extractions| ensures sets[k].candidateIds == [] <==> extractions[k].candidates == [] {
      assert extractions[k] in extractions;
      SortSorts(Ids(extractions[k].candidates), Self);
    }
    AllEmpty(extractions, sets);
  }

  lemma AllEmpty(extractions: seq<Extraction>, sets: seq<ProposalSet>)
    requires |sets| == |extractions|
    requires forall k | 0 <= k < |sets| :: sets[k].candidateIds == [] <==> extractions[k].candidates == []
    ensures (forall p | p in sets :: p.candidateIds == []) <==> forall e | e in extractions :: e.candidates == []
  {
    if forall p | p in sets :: p.candidateIds == [] {
      forall e | e in extractions ensures e.candidates == [] {
        var k :| 0 <= k < |extractions| && extractions[k] == e;
        assert sets[k] in sets;
      }
    }
    if forall e | e in extractions :: e.candidates == [] {
      forall p | p in sets ensures p.candidateIds == [] {
        var k :| 0 <= k < |sets| && sets[k] == p;
        assert extractions[k] in extractions;
      }
    }
  }

  /** One identifier per candidate, in ascending order, as often as proposed. */
  ghost predicate ListsIds(ids: seq<string>, candidates: seq<Json>) {
    && Ascending(ids) && |ids| == |candidates|
    && exists named: seq<string> ::
         && |named| == |candidates| && multiset(named) == multiset(ids)
         && forall k | 0 <= k < |candidates| :: TextField(candidates[k], "unit_id") == Some(named[k])
  }

  /** A proposal set repeats what its own extraction says of the provider's answer. */
  ghost predicate Describes(p: ProposalSet, e: Extraction, sha256: Bytes -> string) {
    && p.provider == e.provider && p.model == e.model && p.requestId == e.requestId && p.rawSha256 == e.rawSha256
    && ListsIds(p.candidateIds, e.candidates)
    && p.setSha256 == sha256(Encode(Print(TextArray(p.candidateIds))))
  }

  lemma SortedIdsListed(candidates: seq<Json>)
    requires Identified(candidates)
    ensures ListsIds(Sort(Ids(candidates)), candidates)
  {
    var named := Ids(candidates);
    SortSorts(named, Self);
    SameSize(named, Sort(named));
    forall k | 0 <= k < |candidates| ensures TextField(candidates[k], "unit_id") == Some(named[k]) {
      assert Some(named[k]) == UnitId(candidates[k]);
    }
  }

  lemma SameSize<T>(a: seq<T>, b: seq<T>)
    requires multiset(a) == multiset(b)
    ensures |a| == |b|
  {
    assert |multiset(a)| == |a| && |multiset(b)| == |b|;
  }

  lemma SetDescribes(e: Extraction, sha256: Bytes -> string)
    requires Identified(e.candidates)
    ensures Describes(SetOf(e, sha256), e, sha256)
  {
    SortedIdsListed(e.candidates);
  }

  /** Position by position, the docket's proposal sets describe the extractions it was built from. */
  lemma SetsDescribe(extractions: seq<Extraction>, sha256: Bytes -> string)
    requires Build(extractions, sha256).Ok?
    ensures var docket := Build(extractions, sha256).value;
            && |docket.proposals| == |extractions| && docket.anchor == extractions[0].anchor
            && forall k | 0 <= k < |extractions| :: Describes(docket.proposals[k], extractions[k], sha256)
  {
    BuiltOf(extractions, sha256);
    forall k | 0 <= k < |extractions|
      ensures Describes(SetsOf(extractions, sha256)[k], extractions[k], sha256)
    {
      assert extractions[k] in extractions;
      SetDescribes(extractions[k], sha256);
    }
  }

  lemma BuiltOf(extractions: seq<Extraction>, sha256: Bytes -> string)
    requires Build(extractions, sha256).Ok?
    ensures extractions != [] && AllIdentified(extractions)
    ensures var docket := Build(extractions, sha256).value;
            docket.proposals == SetsOf(extractions, sha256) && docket.anchor == extractions[0].anchor
  {
  }

  // ---------------------------------------------------------------- what the merge holds

  /** No identifier has two contents that Python tells apart. */
  ghost predicate Consistent(candidates: seq<Json>)
    requires Identified(candidates)
  {
    forall c, d | c in candidates && d in candidates && UnitId(c) == UnitId(d) :: Equals(c, d)
  }

  ghost predicate Holds(byId: map<string, Json>, candidates: seq<Json>)
    requires Identified(candidates)
  {
    && (forall c | c in candidates :: UnitId(c).value in byId && Equals(byId[UnitId(c).value], c))
    && forall id | id in byId :: byId[id] in candidates && UnitId(byId[id]) == Some(id)
  }

  /** The merge succeeds exactly when no identifier has two contents, and then files every candidate. */
  lemma {:induction false} MergeExact(candidates: seq<Json>)
    requires Identified(candidates)
    ensures Merge(candidates).Some? <==> Consistent(candidates)
    ensures Merge(candidates).Some? ==> Holds(Merge(candidates).value, candidates)
    decreases |candidates|
  {
    if candidates != [] {
      var n := |candidates| - 1;
      var front, last := candidates[..n], candidates[n];
      assert candidates == front + [last] && forall c :: c in candidates <==> c in front || c == last;
      MergeExact(front);
    }
  }

  /** Of contents that are equal to Python but not the same JSON, the last one is filed. */
  lemma {:induction false} LastIsFiled(candidates: seq<Json>, k: nat)
    requires Identified(candidates) && Merge(candidates).Some? && k < |candidates|
    requires forall j | k < j < |candidates| :: UnitId(candidates[j]) != UnitId(candidates[k])
    ensures candidates[k] in candidates && UnitId(candidates[k]).value in Merge(candidates).value
    ensures Merge(candidates).value[UnitId(candidates[k]).value] == candidates[k]
    decreases |candidates|
  {
    var n := |candidates| - 1;
    assert forall c | c in candidates[..n] :: c in candidates;
    if k < n {
      LastIsFiled(candidates[..n], k);
      assert candidates[n] in candidates;
    }
  }

  /** Equal identifiers mean equal JSON. */
  ghost predicate Unambiguous(candidates: seq<Json>)
    requires Identified(candidates)
  {
    forall c, d | c in candidates && d in candidates && UnitId(c) == UnitId(d) :: c == d
  }

  ghost predicate SameContents(m: map<string, Json>, n: map<string, Json>) {
    m.Keys == n.Keys && forall id | id in m :: Equals(m[id], n[id])
  }

  lemma HeldContent(m: map<string, Json>, a: seq<Json>, n: map<string, Json>, b: seq<Json>, id: string)
    requires Identified(a) && Identified(b) && Holds(m, a) && Holds(n, b)
    requires (forall c :: c in a <==> c in b) && id in m
    ensures id in n && Equals(m[id], n[id])
  {
    var c := m[id];
    assert c in b && UnitId(c) == Some(id);
    assert n[id] in a;
  }

  lemma HeldContents(m: map<string, Json>, a: seq<Json>, n: map<string, Json>, b: seq<Json>)
    requires Identified(a) && Identified(b) && Holds(m, a) && Holds(n, b)
    requires forall c :: c in a <==> c in b
    ensures SameContents(m, n)
  {
    forall id | id in m ensures id in n && Equals(m[id], n[id]) {
      HeldContent(m, a, n, b, id);
    }
    forall id | id in n ensures id in m {
      HeldContent(n, b, m, a, id);
    }
  }

  lemma SameElementsSameMerge(a: seq<Json>, b: seq<Json>)
    requires Identified(a) && Identified(b) && forall c :: c in a <==> c in b
    ensures Merge(a).Some? <==> Merge(b).Some?
    ensures Merge(a).Some? ==> SameContents(Merge(a).value, Merge(b).value)
  {
    MergeExact(a);
    MergeExact(b);
    assert Consistent(a) <==> Consistent(b);
    if Merge(a).Some? {
      HeldContents(Merge(a).value, a, Merge(b).value, b);
    }
  }

  // ---------------------------------------------------------------- merging lists one after another

  lemma MergeParts(x: seq<Json>, y: seq<Json>)
    requires Identified(x + y) && Merge(x + y).Some?
    ensures Identified(x) && Merge(x).Some? && Identified(y) && Merge(y).Some?
  {
    assert forall c | c in x || c in y :: c in x + y;
    MergeExact(x + y);
    MergeExact(x);
    MergeExact(y);
  }

  lemma Appended(x: seq<Json>, c: Json)
    requires Identified(x + [c]) && Merge(x + [c]).Some?
    ensures Identified(x) && Merge(x).Some? && UnitId(c).Some?
    ensures Merge(x + [c]).value == Merge(x).value[UnitId(c).value := c]
  {
    MergeParts(x, [c]);
    assert c in [c];
    MergeStep(x, c);
  }

  lemma UpdateRight<T>(m: map<string, T>, n: map<string, T>, key: string, value: T)
    ensures (m + n)[key := value] == m + n[key := value]
  {
  }

  /** Of two lists merged one after the other, the second decides what both file. */
  lemma {:induction false} MergeConcat(x: seq<Json>, y: seq<Json>)
    requires Identified(x) && Identified(y) && Merge(x).Some? && Merge(y).Some?
    requires Identified(x + y) && Merge(x + y).Some?
    ensures Merge(x + y) == Some(Merge(x).value + Merge(y).value)
    decreases |y|
  {
    if y == [] {
      assert x + y == x && Merge(x).value + map[] == Merge(x).value;
    } else {
      var n := |y| - 1;
      var front, c := y[..n], y[n];
      assert x + y == (x + front) + [c] && y == front + [c];
      Appended(x + front, c);
      Appended(front, c);
      MergeConcat(x, front);
      UpdateRight(Merge(x).value, Merge(front).value, UnitId(c).value, c);
    }
  }

  /** What one extraction alone would file. */
  function FiledBy(e: Extraction): map<string, Json>
    requires Identified(e.candidates)
  {
    match Merge(e.candidates)
    case Some(m) => m
    case None => map[]
  }

  lemma LastExtractionDecides(extractions: seq<Extraction>, e: Extraction)
    requires AllIdentified(extractions + [e]) && Merge(Flatten(extractions + [e])).Some?
    ensures AllIdentified(extractions) && Merge(Flatten(extractions)).Some? && e in extractions + [e]
    ensures Merge(Flatten(extractions + [e])) == Some(Merge(Flatten(extractions)).value + FiledBy(e))
  {
    var all := extractions + [e];
    assert all[..|all| - 1] == extractions && all[|all| - 1] == e;
    assert Flatten(all) == Flatten(extractions) + e.candidates;
    MergeParts(Flatten(extractions), e.candidates);
    MergeConcat(Flatten(extractions), e.candidates);
    assert forall f | f in extractions :: f in all;
  }

  /** Every filed content is what some extraction alone would file. */
  lemma {:induction false} FiledByOne(extractions: seq<Extraction>, id: string) returns (e: Extraction)
    requires AllIdentified(extractions) && Merge(Flatten(extractions)).Some?
    requires id in Merge(Flatten(extractions)).value
    ensures e in extractions && id in FiledBy(e) && Merge(Flatten(extractions)).value[id] == FiledBy(e)[id]
    decreases |extractions|
  {
    var n := |extractions| - 1;
    var front, last := extractions[..n], extractions[n];
    assert extractions == front + [last];
    LastExtractionDecides(front, last);
    if id in FiledBy(last) {
      e := last;
    } else {
      e := FiledByOne(front, id);
    }
  }

  /** What each refusal says of the extractions; of two that apply the earlier is given. */
  ghost predicate DocketFails(e: DocketError, extractions: seq<Extraction>) {
    match e
    case NoExtractions => |extractions| == 0
    case AnchorsDiffer => exists k :: 0 < k < |extractions| && !Equals(extractions[k].anchor, extractions[0].anchor)
    case MissingUnitId => exists k :: 0 <= k < |extractions| && HasUnnamed(extractions[k])
    case ConflictingContent =>
      exists c, d, id :: ProposedIn(c, extractions) && ProposedIn(d, extractions) && Conflicting(c, d, id)
  }

  ghost predicate HasUnnamed(e: Extraction) {
    exists j :: 0 <= j < |e.candidates| && TextField(e.candidates[j], "unit_id").None?
  }

  ghost predicate ProposedIn(c: Json, extractions: seq<Extraction>) {
    exists k, j :: 0 <= k < |extractions| && 0 <= j < |extractions[k].candidates| && extractions[k].candidates[j] == c
  }

  ghost predicate Conflicting(c: Json, d: Json, id: string) {
    TextField(c, "unit_id") == Some(id) && TextField(d, "unit_id") == Some(id) && !Equals(c, d)
  }

  function DocketRank(e: DocketError): nat {
    match e
    case NoExtractions => 1
    case AnchorsDiffer => 2
    case MissingUnitId => 3
    case ConflictingContent => 4
  }

  lemma AnchorsDifferExactly(extractions: seq<Extraction>)
    requires extractions != []
    ensures DocketFails(AnchorsDiffer, extractions) <==>
              exists e | e in extractions :: !Equals(e.anchor, extractions[0].anchor)
  {
    if e :| e in extractions && !Equals(e.anchor, extractions[0].anchor) {
      var k :| 0 <= k < |extractions| && extractions[k] == e;
      assert 0 < k;
    }
  }

  lemma UnnamedHere(e: Extraction)
    ensures HasUnnamed(e) <==> !Identified(e.candidates)
  {
    if j :| 0 <= j < |e.candidates| && TextField(e.candidates[j], "unit_id").None? {
      assert e.candidates[j] in e.candidates && UnitId(e.candidates[j]).None?;
    }
    if !Identified(e.candidates) {
      var c :| c in e.candidates && UnitId(c).None?;
      var j :| 0 <= j < |e.candidates| && e.candidates[j] == c;
    }
  }

  lemma UnnamedExactly(extractions: seq<Extraction>)
    ensures DocketFails(MissingUnitId, extractions) <==> !AllIdentified(extractions)
  {
    forall e ensures HasUnnamed(e) <==> !Identified(e.candidates) {
      UnnamedHere(e);
    }
    if !AllIdentified(extractions) {
      var e :| e in extractions && !Identified(e.candidates);
      var k :| 0 <= k < |extractions| && extractions[k] == e;
    }
  }

  lemma ProposedInFlat(extractions: seq<Extraction>, c: Json)
    ensures ProposedIn(c, extractions) <==> c in Flatten(extractions)
  {
    if c in Flatten(extractions) {
      var e :| e in extractions && c in e.candidates;
      var k :| 0 <= k < |extractions| && extractions[k] == e;
      var j :| 0 <= j < |e.candidates| && e.candidates[j] == c;
      assert extractions[k].candidates[j] == c;
    }
    if k, j :| 0 <= k < |extractions| && 0 <= j < |extractions[k].candidates| && extractions[k].candidates[j] == c {
      assert extractions[k] in extractions && c in extractions[k].candidates;
    }
  }

  lemma ConflictExactly(extractions: seq<Extraction>)
    requires AllIdentified(extractions)
    ensures DocketFails(ConflictingContent, extractions) <==> Merge(Flatten(extractions)).None?
  {
    var all := Flatten(extractions);
    MergeExact(all);
    InconsistentExactly(all);
    forall c ensures ProposedIn(c, extractions) <==> c in all {
      ProposedInFlat(extractions, c);
    }
  }

  lemma InconsistentExactly(all: seq<Json>)
    requires Identified(all)
    ensures Consistent(all) <==> !exists c, d, id :: c in all && d in all && Conflicting(c, d, id)
  {
    if !Consistent(all) {
      var c, d :| c in all && d in all && UnitId(c) == UnitId(d) && !Equals(c, d);
      assert Conflicting(c, d, UnitId(c).value);
    }
  }

  /** A docket is refused for exactly the first of the four reasons that applies. */
  lemma DocketErrorExact(extractions: seq<Extraction>, sha256: Bytes -> string, e: DocketError)
    ensures Build(extractions, sha256) == Err(e) <==>
              DocketFails(e, extractions) && forall f | DocketRank(f) < DocketRank(e) :: !DocketFails(f, extractions)
  {
    if extractions != [] {
      AnchorsDifferExactly(extractions);
    }
    UnnamedExactly(extractions);
    if AllIdentified(extractions) {
      ConflictExactly(extractions);
    }
    var none, anchors, unnamed := DocketFails(NoExtractions, extractions), DocketFails(AnchorsDiffer, extractions),
      DocketFails(MissingUnitId, extractions);
    var conflict := DocketFails(ConflictingContent, extractions);
    FirstOfFour(e, none, anchors, unnamed, conflict, f => DocketFails(f, extractions));
  }

  lemma FirstOfFour(e: DocketError, none: bool, anchors: bool, unnamed: bool, conflict: bool, g: DocketError -> bool)
    requires g(NoExtractions) == none && g(AnchorsDiffer) == anchors && g(MissingUnitId) == unnamed
    requires g(ConflictingContent) == conflict
    ensures (g(e) && forall f | DocketRank(f) < DocketRank(e) :: !g(f)) <==>
              match e
              case NoExtractions => none
              case AnchorsDiffer => !none && anchors
              case MissingUnitId => !none && !anchors && unnamed
              case ConflictingContent => !none && !anchors && !unnamed && conflict
  {
  }

  lemma FiledIsProposed(extractions: seq<Extraction>, sha256: Bytes -> string, id: string)
    requires AllIdentified(extractions) && exists c :: c in Flatten(extractions) && UnitId(c) == Some(id)
    ensures exists p :: p in SetsOf(extractions, sha256) && id in p.candidateIds
  {
    var c :| c in Flatten(extractions) && UnitId(c) == Some(id);
    var e :| e in extractions && c in e.candidates;
    var k :| 0 <= k < |extractions| && extractions[k] == e;
    IdInSet(e, c, sha256);
    assert SetsOf(extractions, sha256)[k] in SetsOf(extractions, sha256);
  }

  lemma ProposedIsFiled(extractions: seq<Extraction>, sha256: Bytes -> string, id: string)
    requires AllIdentified(extractions) && exists p :: p in SetsOf(extractions, sha256) && id in p.candidateIds
    ensures exists c :: c in Flatten(extractions) && UnitId(c) == Some(id)
  {
    var sets := SetsOf(extractions, sha256);
    var p :| p in sets && id in p.candidateIds;
    var k :| 0 <= k < |sets| && sets[k] == p;
    assert extractions[k] in extractions;
    var c := SetMember(extractions[k], id, sha256);
    assert c in Flatten(extractions);
  }

  /** Exactly the identifiers of some proposal set are filed. */
  lemma FiledExactly(extractions: seq<Extraction>, sha256: Bytes -> string, id: string)
    requires Build(extractions, sha256).Ok?
    ensures var docket := Build(extractions, sha256).value;
            id in docket.candidatesById <==> exists p :: p in docket.proposals && id in p.candidateIds
  {
    var byId := Build(extractions, sha256).value.candidatesById;
    MergeExact(Flatten(extractions));
    assert Holds(byId, Flatten(extractions));
    if id in byId {
      assert byId[id] in Flatten(extractions) && UnitId(byId[id]) == Some(id);
      FiledIsProposed(extractions, sha256, id);
    }
    if exists p :: p in SetsOf(extractions, sha256) && id in p.candidateIds {
      ProposedIsFiled(extractions, sha256, id);
    }
  }

  lemma IdInSet(e: Extraction, c: Json, sha256: Bytes -> string)
    requires Identified(e.candidates) && c in e.candidates
    ensures UnitId(c).value in SetOf(e, sha256).candidateIds
  {
    var ids := Ids(e.candidates);
    SortSorts(ids, Self);
    var k :| 0 <= k < |e.candidates| && e.candidates[k] == c;
    assert ids[k] in multiset(ids);
    assert ids[k] in multiset(Sort(ids));
  }

  lemma SetMember(e: Extraction, id: string, sha256: Bytes -> string) returns (c: Json)
    requires Identified(e.candidates) && id in SetOf(e, sha256).candidateIds
    ensures c in e.candidates && UnitId(c) == Some(id)
  {
    var ids := Ids(e.candidates);
    SortSorts(ids, Self);
    assert id in multiset(Sort(ids));
    assert id in multiset(ids);
    var k :| 0 <= k < |ids| && ids[k] == id;
    c := e.candidates[k];
  }

  lemma SameAgreement(a: seq<Extraction>, b: seq<Extraction>, sha256: Bytes -> string)
    requires Injective(sha256) && AllIdentified(a) && AllIdentified(b) && a != [] && b != []
    requires forall e :: e in a <==> e in b
    ensures AgreementOf(SetsOf(a, sha256)) == AgreementOf(SetsOf(b, sha256))
  {
    AgreementExact(a, sha256);
    AgreementExact(b, sha256);
  }

  lemma SameFiles(a: seq<Extraction>, b: seq<Extraction>)
    requires AllIdentified(a) && AllIdentified(b) && forall e :: e in a <==> e in b
    ensures var x, y := Flatten(a), Flatten(b);
            && (Merge(x).Some? <==> Merge(y).Some?)
            && (Merge(x).Some? ==> SameContents(Merge(x).value, Merge(y).value))
  {
    assert forall c :: c in Flatten(a) <==> c in Flatten(b);
    SameElementsSameMerge(Flatten(a), Flatten(b));
  }

  /** Two dockets that agree on everything but the order of their proposal sets, as far as Python can tell. */
  ghost predicate SameDocket(x: Docket, y: Docket) {
    x.agreement == y.agreement && Equals(x.anchor, y.anchor) && SameContents(x.candidatesById, y.candidatesById)
  }

  lemma SameRefusal(a: seq<Extraction>, b: seq<Extraction>, sha256: Bytes -> string)
    requires forall e :: e in a <==> e in b
    ensures Build(a, sha256).Ok? <==> Build(b, sha256).Ok?
    ensures Build(a, sha256).Err? ==> Build(a, sha256) == Build(b, sha256)
  {
    assert a != [] ==> a[0] in b;
    assert b != [] ==> b[0] in a;
    if a != [] && AllIdentified(a) {
      SameFiles(a, b);
    }
  }

  /**
   Order and repetition of the extractions decide neither whether a docket is refused, nor why, nor its
   agreement state, nor which contents it files, as Python compares them.
   */
  lemma OrderIndependent(a: seq<Extraction>, b: seq<Extraction>, sha256: Bytes -> string)
    requires Injective(sha256) && forall e :: e in a <==> e in b
    ensures Build(a, sha256).Ok? <==> Build(b, sha256).Ok?
    ensures Build(a, sha256).Err? ==> Build(a, sha256) == Build(b, sha256)
    ensures Build(a, sha256).Ok? ==> SameDocket(Build(a, sha256).value, Build(b, sha256).value)
  {
    SameRefusal(a, b, sha256);
    if Build(a, sha256).Ok? {
      assert b[0] in a;
      SameAgreement(a, b, sha256);
      SameFiles(a, b);
    }
  }

  /** No two extractions would file different JSON under one identifier. */
  ghost predicate Settled(extractions: seq<Extraction>)
    requires AllIdentified(extractions)
  {
    forall e, f, id | e in extractions && f in extractions && id in FiledBy(e) && id in FiledBy(f) ::
      FiledBy(e)[id] == FiledBy(f)[id]
  }

  lemma SettledContent(a: seq<Extraction>, b: seq<Extraction>, id: string)
    requires AllIdentified(a) && AllIdentified(b) && Merge(Flatten(a)).Some? && Merge(Flatten(b)).Some?
    requires (forall e :: e in a <==> e in b) && Settled(a)
    requires id in Merge(Flatten(a)).value && id in Merge(Flatten(b)).value
    ensures Merge(Flatten(b)).value[id] == Merge(Flatten(a)).value[id]
  {
    var e := FiledByOne(a, id);
    var f := FiledByOne(b, id);
    assert f in a;
  }

  lemma SettledSameMerge(a: seq<Extraction>, b: seq<Extraction>, m: map<string, Json>, n: map<string, Json>)
    requires AllIdentified(a) && AllIdentified(b) && Settled(a) && forall e :: e in a <==> e in b
    requires Merge(Flatten(a)) == Some(m) && Merge(Flatten(b)) == Some(n) && m.Keys == n.Keys
    ensures m == n
  {
    forall id | id in m ensures n[id] == m[id] {
      SettledContent(a, b, id);
    }
  }

  /** Listing an extraction once more at the end makes its contents the ones filed. */
  lemma RepeatedLast(a: seq<Extraction>, e: Extraction)
    requires AllIdentified(a) && Merge(Flatten(a)).Some? && e in a
    ensures AllIdentified(a + [e]) && (forall f :: f in a <==> f in a + [e])
    ensures Merge(Flatten(a + [e])) == Some(Merge(Flatten(a)).value + FiledBy(e))
  {
    SameFiles(a, a + [e]);
    LastExtractionDecides(a, e);
  }

  /** The docket of these extractions in some order, with any repetition, files this JSON. */
  ghost predicate AlwaysFiles(a: seq<Extraction>, byId: map<string, Json>, sha256: Bytes -> string) {
    forall b: seq<Extraction> | (forall e :: e in a <==> e in b) ::
      Build(b, sha256).Ok? && Build(b, sha256).value.candidatesById == byId
  }

  lemma BuiltMerge(a: seq<Extraction>, sha256: Bytes -> string)
    requires Build(a, sha256).Ok?
    ensures AllIdentified(a) && Merge(Flatten(a)) == Some(Build(a, sha256).value.candidatesById)
  {
  }

  lemma SettledIsEnough(a: seq<Extraction>, sha256: Bytes -> string)
    requires Build(a, sha256).Ok? && AllIdentified(a) && Settled(a)
    ensures AlwaysFiles(a, Build(a, sha256).value.candidatesById, sha256)
  {
    forall b: seq<Extraction> | (forall e :: e in a <==> e in b)
      ensures Build(b, sha256).Ok? && Build(b, sha256).value.candidatesById == Build(a, sha256).value.candidatesById
    {
      SameRefusal(a, b, sha256);
      BuiltMerge(a, sha256);
      BuiltMerge(b, sha256);
      SameFiles(a, b);
      SettledSameMerge(a, b, Build(a, sha256).value.candidatesById, Build(b, sha256).value.candidatesById);
    }
  }

  lemma LastDecides(a: seq<Extraction>, e: Extraction, sha256: Bytes -> string)
    requires Build(a, sha256).Ok? && AllIdentified(a) && e in a
    requires AlwaysFiles(a, Build(a, sha256).value.candidatesById, sha256)
    ensures var byId := Build(a, sha256).value.candidatesById; byId == byId + FiledBy(e)
  {
    BuiltMerge(a, sha256);
    RepeatedLast(a, e);
    assert Build(a + [e], sha256).Ok?;
    BuiltMerge(a + [e], sha256);
  }

  /** The filed JSON is the same for every order and repetition of the extractions exactly when they are settled. */
  lemma OrderMattersExactly(a: seq<Extraction>, sha256: Bytes -> string)
    requires Build(a, sha256).Ok?
    ensures AllIdentified(a)
    ensures AlwaysFiles(a, Build(a, sha256).value.candidatesById, sha256) <==> Settled(a)
  {
    BuiltMerge(a, sha256);
    var byId := Build(a, sha256).value.candidatesById;
    if AlwaysFiles(a, byId, sha256) {
      forall e, f, id | e in a && f in a && id in FiledBy(e) && id in FiledBy(f)
        ensures FiledBy(e)[id] == FiledBy(f)[id]
      {
        LastDecides(a, e, sha256);
        LastDecides(a, f, sha256);
        assert (byId + FiledBy(e))[id] == (byId + FiledBy(f))[id];
      }
    }
    if Settled(a) {
      SettledIsEnough(a, sha256);
    }
  }

  function Number(): Json {
    JObject(map["v" := JInt(1), "unit_id" := JString("u")])
  }

  function Truth(): Json {
    JObject(map["v" := JBool(true), "unit_id" := JString("u")])
  }

  /** One extraction that proposes one candidate. */
  function Single(c: Json): Extraction {
    Extraction("provider", "model", None, [c], JNull, "raw")
  }

  lemma NumberIsTruth()
    ensures Number() != Truth() && Equals(Number(), Truth()) && UnitId(Number()) == UnitId(Truth()) == Some("u")
  {
    assert Number().fields["v"] != Truth().fields["v"];
    assert Number().fields.Keys == {"v", "unit_id"} == Truth().fields.Keys;
    ObjectsEqual(Number(), Truth());
  }

  lemma SinglesBuild(c: Json, d: Json, id: string, sha256: Bytes -> string)
    requires UnitId(c) == Some(id) && UnitId(d) == Some(id) && Equals(c, d)
    ensures Build([Single(c), Single(d)], sha256).Ok?
    ensures Build([Single(c), Single(d)], sha256).value.candidatesById == map[id := d]
  {
    var extractions := [Single(c), Single(d)];
    LaterReplaces(c, d, id);
    FlattenSingles(c, d);
    assert forall e | e in extractions :: e == Single(c) || e == Single(d);
    assert AllIdentified(extractions);
  }

  lemma FlattenSingles(c: Json, d: Json)
    ensures Flatten([Single(c), Single(d)]) == [c, d]
  {
    var none: seq<Extraction> := [];
    assert [Single(c), Single(d)][..1] == [Single(c)] && [Single(c)][..0] == none;
    assert Flatten([Single(c)]) == [c];
  }

  /** Two extractions whose hand-built contents differ as JSON only: no refusal, and their order decides the JSON. */
  lemma TrueReplacesOne(sha256: Bytes -> string)
    ensures var a := Build([Single(Number()), Single(Truth())], sha256);
            var b := Build([Single(Truth()), Single(Number())], sha256);
            && a.Ok? && b.Ok? && a.value.candidatesById != b.value.candidatesById
            && a.value.candidatesById == map["u" := Truth()] && b.value.candidatesById == map["u" := Number()]
  {
    NumberIsTruth();
    SinglesBuild(Number(), Truth(), "u", sha256);
    SinglesBuild(Truth(), Number(), "u", sha256);
    assert map["u" := Truth()]["u"] != map["u" := Number()]["u"];
  }

  lemma FiledAlone(c: Json, id: string)
    requires UnitId(c) == Some(id)
    ensures Identified([c]) && Merge([c]) == Some(map[id := c])
  {
    assert [c][..0] == [];
  }

  lemma LaterReplaces(c: Json, d: Json, id: string)
    requires UnitId(c) == Some(id) && UnitId(d) == Some(id) && Equals(c, d)
    ensures Identified([c, d]) && Merge([c, d]) == Some(map[id := d])
  {
    FiledAlone(c, id);
    MergeStep([c], d);
    assert [c] + [d] == [c, d];
    assert map[id := c][id := d] == map[id := d];
  }

  // ---------------------------------------------------------------- the identifier

  lemma SetFields(p: ProposalSet)
    ensures var v := SetJson(p);
            && TextField(v, "provider") == Some(p.provider) && TextField(v, "model") == Some(p.model)
            && NullableField(v, "request_id") == Some(p.requestId)
            && Field(v, "candidate_ids") == Some(TextArray(p.candidateIds))
            && TextField(v, "candidate_set_sha256") == Some(p.setSha256)
            && TextField(v, "raw_content_sha256") == Some(p.rawSha256)
  {
  }

  lemma SetJsonInjective(p: ProposalSet, q: ProposalSet)
    requires SetJson(p) == SetJson(q)
    ensures p == q
  {
    SetFields(p);
    SetFields(q);
    TextArrayInjective(p.candidateIds, q.candidateIds);
  }

  function DocketPayload(anchor: Json, proposals: seq<ProposalSet>): Json {
    JObject(map[
      "source_anchor" := anchor,
      "proposal_sets" := JArray(seq(|proposals|, k requires 0 <= k < |proposals| => SetJson(proposals[k])))])
  }

  /** Equal docket identifiers mean the same anchor and the same proposal sets, in the same order. */
  lemma DocketIdBinds(anchor1: Json, sets1: seq<ProposalSet>, anchor2: Json, sets2: seq<ProposalSet>,
                      sha256: Bytes -> string)
    requires Injective(sha256) && DocketId(anchor1, sets1, sha256) == DocketId(anchor2, sets2, sha256)
    ensures anchor1 == anchor2 && sets1 == sets2
  {
    var v, w := DocketPayload(anchor1, sets1), DocketPayload(anchor2, sets2);
    PrefixInjective("docket-", sha256(CanonicalBytes(v)), sha256(CanonicalBytes(w)));
    CanonicalInjective(v, w);
    var a, b := v.fields["proposal_sets"].items, w.fields["proposal_sets"].items;
    assert a == b && |sets1| == |sets2| && v.fields["source_anchor"] == w.fields["source_anchor"];
    forall k | 0 <= k < |sets1| ensures sets1[k] == sets2[k] {
      assert a[k] == SetJson(sets1[k]) && b[k] == SetJson(sets2[k]);
      SetJsonInjective(sets1[k], sets2[k]);
    }
  }

  // ---------------------------------------------------------------- dockets of accepted responses

  /** What the candidate boundary hands over. */
  ghost predicate Proposed(e: Extraction, content: string, source: CandidateExtraction.Source,
                           sha256: Bytes -> string) {
    e.anchor == source.anchor && CandidateExtraction.Propose(content, source, sha256) == Ok(e.candidates)
  }

  ghost predicate IsCandidate(c: Json, sha256: Bytes -> string) {
    exists span, unitType, anchor :: c == CandidateExtraction.Candidate(span, unitType, anchor, sha256)
  }

  lemma ProposedAreCandidates(e: Extraction, content: string, source: CandidateExtraction.Source,
                              sha256: Bytes -> string)
    requires Proposed(e, content, source, sha256)
    ensures forall c | c in e.candidates :: IsCandidate(c, sha256)
  {
    var items := CandidateExtraction.CandidateItems(content).value;
    CandidateExtraction.NormalizeAllExact(items, source, sha256);
    forall c | c in e.candidates ensures IsCandidate(c, sha256) {
      var k :| 0 <= k < |e.candidates| && e.candidates[k] == c;
      assert CandidateExtraction.Kept(items[k], e.candidates[k], source, sha256);
    }
  }

  lemma CandidateUnitId(span: string, unitType: string, anchor: Json, sha256: Bytes -> string)
    ensures UnitId(CandidateExtraction.Candidate(span, unitType, anchor, sha256))
            == Some(CandidateExtraction.CandidateId(span, unitType, anchor, sha256))
  {
  }

  lemma CandidatesByIdAgree(c: Json, d: Json, sha256: Bytes -> string)
    requires Injective(sha256) && IsCandidate(c, sha256) && IsCandidate(d, sha256)
    ensures UnitId(c).Some? && UnitId(d).Some? && (UnitId(c) == UnitId(d) ==> c == d)
  {
    var span1, type1, anchor1 :| c == CandidateExtraction.Candidate(span1, type1, anchor1, sha256);
    var span2, type2, anchor2 :| d == CandidateExtraction.Candidate(span2, type2, anchor2, sha256);
    CandidateUnitId(span1, type1, anchor1, sha256);
    CandidateUnitId(span2, type2, anchor2, sha256);
    if UnitId(c) == UnitId(d) {
      CandidateExtraction.UnitIdBinds(span1, type1, anchor1, span2, type2, anchor2, sha256);
    }
  }

  lemma CandidatesMerge(candidates: seq<Json>, sha256: Bytes -> string)
    requires Injective(sha256) && forall c | c in candidates :: IsCandidate(c, sha256)
    ensures Identified(candidates) && Merge(candidates).Some? && Unambiguous(candidates)
  {
    forall c | c in candidates ensures UnitId(c).Some? {
      CandidatesByIdAgree(c, c, sha256);
    }
    forall c, d | c in candidates && d in candidates && UnitId(c) == UnitId(d) ensures c == d {
      CandidatesByIdAgree(c, d, sha256);
    }
    MergeExact(candidates);
  }

  /** Every candidate has an identifier, and one identifier never stands for two contents. */
  ghost predicate Coherent(extractions: seq<Extraction>) {
    AllIdentified(extractions) && Unambiguous(Flatten(extractions))
  }

  /** What the boundary guarantees of one extraction. */
  ghost predicate Lawful(e: Extraction, anchor: Json, sha256: Bytes -> string) {
    e.anchor == anchor && forall c | c in e.candidates :: IsCandidate(c, sha256)
  }

  ghost predicate AllLawful(extractions: seq<Extraction>, anchors: seq<Json>, sha256: Bytes -> string) {
    |anchors| == |extractions| && forall k | 0 <= k < |extractions| :: Lawful(extractions[k], anchors[k], sha256)
  }

  lemma LawfulDocket(extractions: seq<Extraction>, anchors: seq<Json>, sha256: Bytes -> string)
    requires Injective(sha256) && AllLawful(extractions, anchors, sha256)
    ensures Coherent(extractions) && Merge(Flatten(extractions)).Some?
    ensures Anchors(extractions) == anchors
  {
    forall e | e in extractions
      ensures Identified(e.candidates) && forall c | c in e.candidates :: IsCandidate(c, sha256)
    {
      var k :| 0 <= k < |extractions| && extractions[k] == e;
      assert Lawful(e, anchors[k], sha256);
      CandidatesMerge(e.candidates, sha256);
    }
    CandidatesMerge(Flatten(extractions), sha256);
    forall k | 0 <= k < |extractions| ensures Anchors(extractions)[k] == anchors[k] {
      assert Lawful(extractions[k], anchors[k], sha256);
    }
  }

  predicate SameAnchors(anchors: seq<Json>) {
    forall a | a in anchors :: Equals(a, anchors[0])
  }

  function Anchors(extractions: seq<Extraction>): seq<Json> {
    seq(|extractions|, k requires 0 <= k < |extractions| => extractions[k].anchor)
  }

  /** With every candidate identified and no conflict, only the anchors decide. */
  lemma OnlyAnchorsRefuse(extractions: seq<Extraction>, sha256: Bytes -> string)
    requires extractions != [] && AllIdentified(extractions) && Merge(Flatten(extractions)).Some?
    ensures Build(extractions, sha256).Ok? <==> SameAnchors(Anchors(extractions))
  {
    var anchors := Anchors(extractions);
    if SameAnchors(anchors) {
      forall e | e in extractions ensures Equals(e.anchor, extractions[0].anchor) {
        var k :| 0 <= k < |extractions| && extractions[k] == e;
        assert anchors[k] in anchors;
      }
    } else {
      var a :| a in anchors && !Equals(a, anchors[0]);
      var k :| 0 <= k < |anchors| && anchors[k] == a;
      assert extractions[k] in extractions;
    }
  }

  lemma LawfulBuild(extractions: seq<Extraction>, anchors: seq<Json>, sha256: Bytes -> string)
    requires Injective(sha256) && extractions != [] && AllLawful(extractions, anchors, sha256)
    ensures Build(extractions, sha256).Ok? <==> SameAnchors(anchors)
    ensures Coherent(extractions)
  {
    LawfulDocket(extractions, anchors, sha256);
    OnlyAnchorsRefuse(extractions, sha256);
  }

  lemma ProposedAreLawful(extractions: seq<Extraction>, contents: seq<string>,
                          sources: seq<CandidateExtraction.Source>, sha256: Bytes -> string)
    requires |contents| == |extractions| == |sources|
    requires forall k | 0 <= k < |extractions| :: Proposed(extractions[k], contents[k], sources[k], sha256)
    ensures AllLawful(extractions, SourceAnchors(sources), sha256)
  {
    forall k | 0 <= k < |extractions| ensures Lawful(extractions[k], SourceAnchors(sources)[k], sha256) {
      ProposedAreCandidates(extractions[k], contents[k], sources[k], sha256);
    }
  }

  function SourceAnchors(sources: seq<CandidateExtraction.Source>): (anchors: seq<Json>)
    ensures |anchors| == |sources|
  {
    seq(|sources|, k requires 0 <= k < |sources| => sources[k].anchor)
  }

  /** Responses accepted for one anchor always make a docket: the other refusals cannot happen. */
  lemma AcceptedResponsesMakeADocket(extractions: seq<Extraction>, contents: seq<string>,
                                     sources: seq<CandidateExtraction.Source>, sha256: Bytes -> string)
    requires Injective(sha256) && extractions != [] && |contents| == |extractions| == |sources|
    requires forall k | 0 <= k < |extractions| :: Proposed(extractions[k], contents[k], sources[k], sha256)
    ensures Build(extractions, sha256).Ok? <==> SameAnchors(SourceAnchors(sources))
    ensures Coherent(extractions)
  {
    ProposedAreLawful(extractions, contents, sources, sha256);
    LawfulBuild(extractions, SourceAnchors(sources), sha256);
  }

  lemma FiledIsCandidate(e: Extraction, id: string)
    requires Identified(e.candidates) && id in FiledBy(e)
    ensures FiledBy(e)[id] in e.candidates && UnitId(FiledBy(e)[id]) == Some(id)
  {
    MergeExact(e.candidates);
  }

  lemma FiledAreOne(all: seq<Json>, e: Extraction, f: Extraction, id: string)
    requires Identified(all) && Unambiguous(all) && forall c | c in e.candidates || c in f.candidates :: c in all
    requires Identified(e.candidates) && Identified(f.candidates) && id in FiledBy(e) && id in FiledBy(f)
    ensures FiledBy(e)[id] == FiledBy(f)[id]
  {
    FiledIsCandidate(e, id);
    FiledIsCandidate(f, id);
  }

  lemma CoherentIsSettled(extractions: seq<Extraction>)
    requires Coherent(extractions)
    ensures Settled(extractions)
  {
    var all := Flatten(extractions);
    forall e, f, id | e in extractions && f in extractions && id in FiledBy(e) && id in FiledBy(f)
      ensures FiledBy(e)[id] == FiledBy(f)[id]
    {
      FiledAreOne(all, e, f, id);
    }
  }

  /** So the docket of accepted responses files the same JSON for every order and repetition of them. */
  lemma AcceptedResponsesInAnyOrder(extractions: seq<Extraction>, contents: seq<string>,
                                    sources: seq<CandidateExtraction.Source>, sha256: Bytes -> string)
    requires Injective(sha256) && |contents| == |extractions| == |sources| && Build(extractions, sha256).Ok?
    requires forall k | 0 <= k < |extractions| :: Proposed(extractions[k], contents[k], sources[k], sha256)
    ensures AlwaysFiles(extractions, Build(extractions, sha256).value.candidatesById, sha256)
  {
    AcceptedResponsesMakeADocket(extractions, contents, sources, sha256);
    BuiltMerge(extractions, sha256);
    CoherentIsSettled(extractions);
    SettledIsEnough(extractions, sha256);
  }

  // ---------------------------------------------------------------- what a docket identifier digests

  /** One proposal set as the docket's payload lists it. */
  ghost predicate SetSays(v: Json, p: ProposalSet) {
    && v.JObject? && v.fields.Keys == {"provider", "model", "request_id", "candidate_ids", "candidate_set_sha256",
                                       "raw_content_sha256"}
    && TextField(v, "provider") == Some(p.provider) && TextField(v, "model") == Some(p.model)
    && NullableField(v, "request_id") == Some(p.requestId)
    && Field(v, "candidate_ids") == Some(TextArray(p.candidateIds))
    && TextField(v, "candidate_set_sha256") == Some(p.setSha256)
    && TextField(v, "raw_content_sha256") == Some(p.rawSha256)
  }

  /** The anchor and the proposal sets in their order, and nothing else. */
  ghost predicate PayloadSays(v: Json, docket: Docket) {
    && v.JObject? && v.fields.Keys == {"source_anchor", "proposal_sets"}
    && Field(v, "source_anchor") == Some(docket.anchor)
    && exists sets :: ArrayField(v, "proposal_sets") == Some(sets) && |sets| == |docket.proposals|
                      && forall k | 0 <= k < |sets| :: SetSays(sets[k], docket.proposals[k])
  }

  lemma SetJsonSays(p: ProposalSet)
    ensures SetSays(SetJson(p), p)
  {
  }

  lemma PayloadOfDocket(docket: Docket)
    ensures PayloadSays(DocketPayload(docket.anchor, docket.proposals), docket)
  {
    var v := DocketPayload(docket.anchor, docket.proposals);
    var sets := seq(|docket.proposals|, k requires 0 <= k < |docket.proposals| => SetJson(docket.proposals[k]));
    assert Field(v, "proposal_sets").Some? && Field(v, "proposal_sets").value.items == sets;
    forall k | 0 <= k < |sets| ensures SetSays(sets[k], docket.proposals[k]) {
      SetJsonSays(docket.proposals[k]);
    }
  }

  /** A docket's identifier digests its anchor and its proposal sets, member by member and in their order. */
  lemma DocketIdDigests(extractions: seq<Extraction>, sha256: Bytes -> string)
    requires Build(extractions, sha256).Ok?
    ensures var docket := Build(extractions, sha256).value;
            exists payload ::
              PayloadSays(payload, docket) && docket.docketId == "docket-" + sha256(Encode(Print(payload)))
  {
    PayloadOfDocket(Build(extractions, sha256).value);
  }
}
