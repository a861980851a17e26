/**
 The authority-evidence integrity loop: identifiers distinct, records in ascending
 (evidence_id, evidence_digest) order, and every recorded digest recomputing from its own record.
 */
module EvidenceOrder {
  import opened Outcomes
  import opened Text
  import opened TextSort
  import opened Utf8
  import opened Json
  import opened CanonicalGate

  const DIGEST_PREFIX := "sha256:"

  /** `_digest_of_projection`, for a given SHA-256 hex digest. */
  function DigestOf(v: Json, sha256: Bytes -> string): string {
    DIGEST_PREFIX + sha256(CanonicalBytes(v))
  }

  /** One evidence object: its identifier, its recorded digest, and the object without that digest. */
  datatype Record = Record(id: string, digest: string, body: Json)

  predicate KeyLess(a: Record, b: Record) {
    Less(a.id, b.id) || (a.id == b.id && Less(a.digest, b.digest))
  }

  predicate Recomputes(r: Record, sha256: Bytes -> string) {
    DigestOf(r.body, sha256) == r.digest
  }

  /** The order conditions the loop reads at position `k`. */
  predicate OrderedAt(records: seq<Record>, k: nat)
    requires k < |records|
  {
    (forall j | 0 <= j < k :: records[j].id != records[k].id) && (k > 0 ==> KeyLess(records[k - 1], records[k]))
  }

  predicate GoodAt(records: seq<Record>, k: nat, sha256: Bytes -> string)
    requires k < |records|
  {
    OrderedAt(records, k) && Recomputes(records[k], sha256)
  }

  /** The identifiers of the first `k` records. */
  predicate SeenIds(seen: set<string>, records: seq<Record>, k: nat)
    requires k <= |records|
  {
    seen == set j | 0 <= j < k :: records[j].id
  }

  lemma SeenIdsStep(seen: set<string>, records: seq<Record>, k: nat)
    requires k < |records| && SeenIds(seen, records, k)
    ensures records[k].id in seen <==> exists j :: 0 <= j < k && records[j].id == records[k].id
    ensures SeenIds(seen + {records[k].id}, records, k + 1)
  {
  }

  /** `_require_evidence_integrity`: the first bad position decides the error, and its order is read first. */
  method RequireEvidenceIntegrity(records: seq<Record>, sha256: Bytes -> string) returns (r: Result<(), BoundaryError>)
    ensures r == Integrity(records, sha256)
    ensures r.Ok? <==> AscendingIds(records) && forall k | 0 <= k < |records| :: Recomputes(records[k], sha256)
  {
    AcceptedExactly(records, sha256);
    var seenIds: set<string> := {};
    var previous: Option<Record> := None;
    for index := 0 to |records|
      invariant SeenIds(seenIds, records, index)
      invariant previous == if index == 0 then None else Some(records[index - 1])
      invariant Integrity(records, sha256) == IntegrityFrom(records, index, sha256)
    {
      var item := records[index];
      SeenIdsStep(seenIds, records, index);
      IntegrityStep(records, index, sha256);
      if item.id in seenIds {
        return Err(EvidenceOrderError);
      }
      seenIds := seenIds + {item.id};
      if previous.Some? && !KeyLess(previous.value, item) {
        return Err(EvidenceOrderError);
      }
      previous := Some(item);
      if DigestOf(item.body, sha256) != item.digest {
        return Err(EvidenceIntegrityError);
      }
    }
    return Ok(());
  }

  /** The same check as a function of the position it has reached. */
  function IntegrityFrom(records: seq<Record>, k: nat, sha256: Bytes -> string): Result<(), BoundaryError>
    requires k <= |records|
    decreases |records| - k
  {
    if k == |records| then Ok(())
    else if !OrderedAt(records, k) then Err(EvidenceOrderError)
    else if !Recomputes(records[k], sha256) then Err(EvidenceIntegrityError)
    else IntegrityFrom(records, k + 1, sha256)
  }

  lemma IntegrityStep(records: seq<Record>, k: nat, sha256: Bytes -> string)
    requires k < |records|
    ensures ((exists j :: 0 <= j < k && records[j].id == records[k].id)
             || (k > 0 && !KeyLess(records[k - 1], records[k]))) <==> !OrderedAt(records, k)
    ensures !OrderedAt(records, k) ==> IntegrityFrom(records, k, sha256) == Err(EvidenceOrderError)
    ensures OrderedAt(records, k) && !Recomputes(records[k], sha256) ==>
              IntegrityFrom(records, k, sha256) == Err(EvidenceIntegrityError)
    ensures OrderedAt(records, k) && Recomputes(records[k], sha256) ==>
              IntegrityFrom(records, k, sha256) == IntegrityFrom(records, k + 1, sha256)
  {
  }

  function Integrity(records: seq<Record>, sha256: Bytes -> string): Result<(), BoundaryError> {
    IntegrityFrom(records, 0, sha256)
  }

  lemma {:induction false} IntegrityFromExact(records: seq<Record>, k: nat, sha256: Bytes -> string)
    requires k <= |records|
    ensures IntegrityFrom(records, k, sha256).Ok? <==> forall m | k <= m < |records| :: GoodAt(records, m, sha256)
    decreases |records| - k
  {
    if k < |records| {
      IntegrityFromExact(records, k + 1, sha256);
      IntegrityStep(records, k, sha256);
      assert GoodAt(records, k, sha256) <==> OrderedAt(records, k) && Recomputes(records[k], sha256);
    }
  }

  ghost predicate AscendingIds(records: seq<Record>) {
    forall j, k | 0 <= j < k < |records| :: Less(records[j].id, records[k].id)
  }

  /** What acceptance means: strictly ascending identifiers, and every digest recomputes. */
  lemma AcceptedExactly(records: seq<Record>, sha256: Bytes -> string)
    ensures Integrity(records, sha256).Ok? <==>
              AscendingIds(records) && forall k | 0 <= k < |records| :: Recomputes(records[k], sha256)
  {
    IntegrityFromExact(records, 0, sha256);
    if forall k | 0 <= k < |records| :: GoodAt(records, k, sha256) {
      forall j, k | 0 <= j < k < |records| ensures Less(records[j].id, records[k].id) {
        GoodAscends(records, j, k, sha256);
      }
    }
    if AscendingIds(records) {
      forall k | 0 <= k < |records| ensures OrderedAt(records, k) {
        forall j | 0 <= j < k ensures records[j].id != records[k].id {
          LessAsymmetric(records[j].id, records[k].id);
        }
      }
    }
    forall k | 0 <= k < |records| ensures GoodAt(records, k, sha256) ==> Recomputes(records[k], sha256) {
    }
  }

  lemma {:induction false} GoodAscends(records: seq<Record>, j: nat, k: nat, sha256: Bytes -> string)
    requires j < k < |records| && forall m | 0 <= m < |records| :: GoodAt(records, m, sha256)
    ensures Less(records[j].id, records[k].id)
    decreases k
  {
    assert GoodAt(records, k, sha256);
    assert Less(records[k - 1].id, records[k].id);
    if j < k - 1 {
      GoodAscends(records, j, k - 1, sha256);
      LessTransitive(records[j].id, records[k - 1].id, records[k].id);
    }
  }

  // ---------------------------------------------------------------- permutations

  function Ids(records: seq<Record>): seq<string> {
    seq(|records|, k requires 0 <= k < |records| => records[k].id)
  }

  /** No bag of evidence has two accepted orders. */
  lemma AtMostOneOrder(a: seq<Record>, b: seq<Record>, sha256: Bytes -> string)
    requires multiset(a) == multiset(b) && Integrity(a, sha256).Ok? && Integrity(b, sha256).Ok?
    ensures a == b
  {
    AcceptedExactly(a, sha256);
    AcceptedExactly(b, sha256);
    SameBagSameMembers(a, b);
    SameIds(a, b);
    SameIds(b, a);
    AscendingUnique(Ids(a), Ids(b));
    forall k | 0 <= k < |a| ensures a[k] == b[k] {
      assert a[k] in b;
      var j :| 0 <= j < |b| && b[j] == a[k];
      assert Ids(a)[k] == Ids(b)[k];
      if j != k {
        var lo, hi := if j < k then j else k, if j < k then k else j;
        LessAsymmetric(b[lo].id, b[hi].id);
      }
    }
  }

  lemma SameBagSameMembers(a: seq<Record>, b: seq<Record>)
    requires multiset(a) == multiset(b)
    ensures |a| == |b| && forall r :: r in a <==> r in b
  {
    assert |a| == |multiset(a)| && |b| == |multiset(b)|;
    forall r ensures r in a <==> r in b {
      assert r in a <==> r in multiset(a);
      assert r in b <==> r in multiset(b);
    }
  }

  lemma SameIds(a: seq<Record>, b: seq<Record>)
    requires forall r :: r in a ==> r in b
    ensures forall id :: id in Ids(a) ==> id in Ids(b)
  {
    forall id | id in Ids(a) ensures id in Ids(b) {
      var k :| 0 <= k < |a| && Ids(a)[k] == id;
      assert a[k] in b;
      var j :| 0 <= j < |b| && b[j] == a[k];
      assert Ids(b)[j] == id;
    }
  }

  function IdOf(r: Record): string { r.id }

  /** A bag of evidence has an accepted order exactly when its identifiers are distinct and its digests recompute. */
  lemma AcceptedOrderExists(records: seq<Record>, sha256: Bytes -> string)
    ensures (exists order :: multiset(order) == multiset(records) && Integrity(order, sha256).Ok?) <==>
              DistinctBy(records, IdOf) && forall k | 0 <= k < |records| :: Recomputes(records[k], sha256)
  {
    if order :| multiset(order) == multiset(records) && Integrity(order, sha256).Ok? {
      AcceptedIsDistinct(order, records, sha256);
    }
    if DistinctBy(records, IdOf) && forall k | 0 <= k < |records| :: Recomputes(records[k], sha256) {
      SortedIsAccepted(records, sha256);
    }
  }

  lemma AcceptedIsDistinct(order: seq<Record>, records: seq<Record>, sha256: Bytes -> string)
    requires multiset(order) == multiset(records) && Integrity(order, sha256).Ok?
    ensures DistinctBy(records, IdOf) && forall k | 0 <= k < |records| :: Recomputes(records[k], sha256)
  {
    AcceptedExactly(order, sha256);
    forall j, k | 0 <= j < k < |order| ensures IdOf(order[j]) != IdOf(order[k]) {
      LessAsymmetric(order[j].id, order[k].id);
    }
    DistinctIsOrderFree(order, records, IdOf);
    SameBagSameMembers(order, records);
    forall k | 0 <= k < |records| ensures Recomputes(records[k], sha256) {
      assert records[k] in order;
    }
  }

  lemma SortedIsAccepted(records: seq<Record>, sha256: Bytes -> string)
    requires DistinctBy(records, IdOf) && forall k | 0 <= k < |records| :: Recomputes(records[k], sha256)
    ensures multiset(SortBy(records, IdOf)) == multiset(records) && Integrity(SortBy(records, IdOf), sha256).Ok?
  {
    var order := SortBy(records, IdOf);
    SortSorts(records, IdOf);
    DistinctIsOrderFree(records, order, IdOf);
    forall j, k | 0 <= j < k < |order| ensures Less(order[j].id, order[k].id) {
      assert AtMost(IdOf(order[j]), IdOf(order[k])) && IdOf(order[j]) != IdOf(order[k]);
    }
    forall k | 0 <= k < |order| ensures Recomputes(order[k], sha256) {
      assert order[k] in records;
    }
    AcceptedExactly(order, sha256);
  }
}
