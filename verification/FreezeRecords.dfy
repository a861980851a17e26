/** The freeze round trip's condition read off the rights records alone, before anything is requested. */
module FreezeRecords {
  import opened Outcomes
  import opened Text
  import opened Digests
  import opened Json
  import opened Ledger
  import opened FreezePackage
  import opened FreezeVerifier
  import opened FreezeProducer
  import opened FreezeRoundTrip
  import opened FreezeConditions

  const SUFFIXES := {".pdf", ".xml", ".html"}

  /** For some media types the verifier's pattern for `id` finds the file of `other` and not that of `id` first. */
  predicate CanPrecede(id: string, other: string) {
    exists s, t | s in SUFFIXES && t in SUFFIXES :: Precedes(id, s, other, t)
  }

  predicate Precedes(id: string, s: string, other: string, t: string) {
    && Glob.Matches(InternalPattern(id), other + t)
    && (Glob.Matches(InternalPattern(id), id + s) ==> Less(other + t, id + s))
  }

  predicate SafeRecord(r: RightsRecord) {
    ClosedStorage(r) && r.targetUrl != r.provenanceUrl && OneLine(r.sourceId)
  }

  predicate SafeInternal(records: seq<RightsRecord>, r: RightsRecord) {
    && Glob.Acceptable(InternalPattern(r.sourceId))
    && forall other | other in records && Internal(other) && other.sourceId != r.sourceId ::
         !CanPrecede(r.sourceId, other.sourceId)
  }

  /** An eligible record whose bytes stay out of the repository. */
  predicate Internal(r: RightsRecord) {
    Eligible(r) && r.storage == INTERNAL_ONLY
  }

  predicate SafeRecords(records: seq<RightsRecord>) {
    && (forall r | r in records :: ClosedDisposition(r) && (Eligible(r) ==> SafeRecord(r)))
    && forall r | r in records && Internal(r) :: SafeInternal(records, r)
  }

  /** The gates that the record alone decides. */
  predicate GatesOpen(r: RightsRecord) {
    && r.disposition != BLOCKED && r.acquisitionPermitted && r.retrievalSupported && r.internalUseSupported
    && !(r.sourceId == "CA-3" && r.targetUrl == r.provenanceUrl)
  }

  predicate OneComponent(records: seq<RightsRecord>) {
    forall r | r in records && Eligible(r) :: '/' !in r.sourceId
  }

  /** Whatever the responses of a successful run were, its tree verifies. */
  ghost predicate EveryRunVerifies(files: Files, records: seq<RightsRecord>, h: Hashes, narrative: Json) {
    forall responses: seq<Option<Fetched>>, items: seq<Item> | Acquired(Queue(records), responses) == Ok(items) ::
      Verification(RunTree(files, records, items, h, narrative), records, h) == Ok([])
  }

  // ---------------------------------------------------------------- safe records

  lemma ItemsOfRun(records: seq<RightsRecord>, responses: seq<Option<Fetched>>, items: seq<Item>)
    requires UniqueIds(records) && OneComponent(records) && Acquired(Queue(records), responses) == Ok(items)
    ensures Plain(items) && forall i | i in items :: i.record in records && Eligible(i.record)
    ensures forall r | r in records && Eligible(r) :: exists i :: i in items && i.record == r
  {
    AcquiredExactly(records, responses, items);
    forall r | r in records && Eligible(r) ensures exists i :: i in items && i.record == r {
      var k :| 0 <= k < |items| && items[k].record == r;
      assert items[k] in items;
    }
  }

  lemma SafeItemIsFindable(records: seq<RightsRecord>, items: seq<Item>, i: Item)
    requires SafeRecords(records) && Plain(items) && i in items
    requires forall j | j in items :: j.record in records && Eligible(j.record)
    ensures Findable(items, i)
  {
    if !Frozen(i) {
      assert SafeRecord(i.record) && SafeInternal(records, i.record);
      if InternalNames(items, i.record.sourceId) != {} {
        var j := FirstMatch(items, i);
        assert SafeRecord(j.record) && Internal(j.record);
        NothingPrecedes(items, i, j);
      }
    }
  }

  lemma NothingPrecedes(items: seq<Item>, i: Item, j: Item)
    requires Plain(items) && i in items && j in items && !Frozen(i)
    requires BytesName(j) in InternalNames(items, i.record.sourceId)
    requires BytesName(j) == Least(InternalNames(items, i.record.sourceId))
    requires i.record.sourceId != j.record.sourceId ==> !CanPrecede(i.record.sourceId, j.record.sourceId)
    ensures i == j
  {
    if i.record.sourceId == j.record.sourceId {
      SameIdSameItem(items, i, j);
    } else {
      var names := InternalNames(items, i.record.sourceId);
      assert !Precedes(i.record.sourceId, i.suffix, j.record.sourceId, j.suffix);
      assert BytesName(i) in names;
      assert AtMost(BytesName(j), BytesName(i));
      SameNameSameItem(items, i, j);
    }
  }

  lemma SafeRunsVerify(files: Files, records: seq<RightsRecord>, h: Hashes, narrative: Json)
    requires UniqueIds(records) && EmptyTree(files) && Injective(h.sha256) && HexHashes(h) && OneComponent(records)
    requires SafeRecords(records)
    ensures EveryRunVerifies(files, records, h, narrative)
  {
    forall responses: seq<Option<Fetched>>, items: seq<Item> | Acquired(Queue(records), responses) == Ok(items)
      ensures Verification(RunTree(files, records, items, h, narrative), records, h) == Ok([])
    {
      ItemsOfRun(records, responses, items);
      forall i | i in items ensures ConformingItem(items, i) {
        assert SafeRecord(i.record);
        SafeItemIsFindable(records, items, i);
      }
      OneComponentRoundTrip(files, records, responses, items, h, narrative);
    }
  }

  // ---------------------------------------------------------------- a run for every choice of responses

  predicate Servable(f: Fetched) {
    |f.body| <= MAX_BYTES && SuffixOf(f.contentType).Some?
  }

  function Answers(queue: seq<RightsRecord>, answer: RightsRecord -> Fetched): seq<Option<Fetched>> {
    seq(|queue|, k requires 0 <= k < |queue| => Some(answer(queue[k])))
  }

  function ItemFor(r: RightsRecord, f: Fetched): Item
    requires Servable(f)
  {
    Item(r, f, SuffixOf(f.contentType).value)
  }

  lemma {:induction false} AnsweredUpTo(queue: seq<RightsRecord>, answer: RightsRecord -> Fetched, k: nat)
    requires k <= |queue| && forall r | r in queue :: GatesOpen(r) && Servable(answer(r))
    ensures Acquired(queue[..k], Answers(queue, answer)).Ok?
    ensures var items := Acquired(queue[..k], Answers(queue, answer)).value;
            |items| == k
            && forall j | 0 <= j < k :: queue[j] in queue && items[j] == ItemFor(queue[j], answer(queue[j]))
  {
    if k > 0 {
      AnsweredUpTo(queue, answer, k - 1);
      var r := queue[k - 1];
      assert r in queue;
      FirstRefusalWins(r, Some(answer(r)));
      AcquiredStep(queue, Answers(queue, answer), k - 1);
    }
  }

  /** With open gates, every choice of servable responses is a successful run. */
  lemma Answered(records: seq<RightsRecord>, answer: RightsRecord -> Fetched) returns (items: seq<Item>)
    requires forall r | r in records && Eligible(r) :: GatesOpen(r)
    requires forall r :: Servable(answer(r))
    ensures Acquired(Queue(records), Answers(Queue(records), answer)) == Ok(items)
    ensures forall i | i in items :: i == ItemFor(i.record, answer(i.record))
  {
    var queue := Queue(records);
    assert queue[..|queue|] == queue;
    AnsweredUpTo(queue, answer, |queue|);
    items := Acquired(queue, Answers(queue, answer)).value;
  }

  function TypeOf(suffix: string): (contentType: string)
    requires suffix in SUFFIXES
    ensures SuffixOf(contentType) == Some(suffix)
  {
    if suffix == ".pdf" then "application/pdf" else if suffix == ".xml" then "application/xml" else "text/html"
  }

  /** One body and type for the source `id`, and another for all others. */
  function Two(id: string, s: string, t: string): RightsRecord -> Fetched
    requires s in SUFFIXES && t in SUFFIXES
  {
    (r: RightsRecord) => if r.sourceId == id then Fetched([0], TypeOf(s), map[]) else Fetched([], TypeOf(t), map[])
  }

  // ---------------------------------------------------------------- unsafe records

  lemma UnsafeRunFails(files: Files, records: seq<RightsRecord>, h: Hashes, narrative: Json, s: string, t: string,
                       id: string)
    returns (items: seq<Item>)
    requires UniqueIds(records) && EmptyTree(files) && Injective(h.sha256) && HexHashes(h) && OneComponent(records)
    requires (forall r | r in records && Eligible(r) :: GatesOpen(r)) && s in SUFFIXES && t in SUFFIXES
    ensures Plain(items) && forall i | i in items :: i.record in records && Eligible(i.record)
    ensures forall r | r in records && Eligible(r) :: exists i :: i in items && i.record == r
    ensures forall i | i in items :: i == ItemFor(i.record, Two(id, s, t)(i.record))
    ensures !Conforming(records, items) ==> !EveryRunVerifies(files, records, h, narrative)
  {
    items := Answered(records, Two(id, s, t));
    var responses := Answers(Queue(records), Two(id, s, t));
    ItemsOfRun(records, responses, items);
    OneComponentRoundTrip(files, records, responses, items, h, narrative);
  }

  /** The pattern of `i` finds other bytes first, if those of `j` can come before its own. */
  lemma PrecededIsShadowed(items: seq<Item>, i: Item, j: Item)
    requires Plain(items) && i in items && j in items && !Frozen(j)
    requires Precedes(i.record.sourceId, i.suffix, j.record.sourceId, j.suffix)
    requires forall k | k in items && k != i :: k.fetched.body != i.fetched.body
    ensures Shadowed(items, i)
  {
    var names := InternalNames(items, i.record.sourceId);
    assert BytesName(j) in names;
    var m := FirstMatch(items, i);
    assert AtMost(BytesName(m), BytesName(j));
    if m == i {
      var n :| n in items && Glob.Matches(InternalPattern(i.record.sourceId), BytesName(n))
        && BytesName(n) == BytesName(i);
      LessAsymmetric(BytesName(j), BytesName(i));
    }
  }

  lemma PrecedenceFails(files: Files, records: seq<RightsRecord>, h: Hashes, narrative: Json, r: RightsRecord,
                        q: RightsRecord)
    requires UniqueIds(records) && EmptyTree(files) && Injective(h.sha256) && HexHashes(h) && OneComponent(records)
    requires forall x | x in records && Eligible(x) :: GatesOpen(x)
    requires r in records && q in records && Internal(r) && Internal(q) && q.sourceId != r.sourceId
    requires CanPrecede(r.sourceId, q.sourceId)
    ensures !EveryRunVerifies(files, records, h, narrative)
  {
    var s, t :| s in SUFFIXES && t in SUFFIXES && Precedes(r.sourceId, s, q.sourceId, t);
    var items := UnsafeRunFails(files, records, h, narrative, s, t, r.sourceId);
    var i :| i in items && i.record == r;
    var j :| j in items && j.record == q;
    InternalIsNotFrozen(i);
    InternalIsNotFrozen(j);
    forall k | k in items && k != i ensures k.fetched.body != i.fetched.body {
      if k.record.sourceId == r.sourceId {
        SameIdSameItem(items, k, i);
      }
    }
    PrecededIsShadowed(items, i, j);
    assert !ConformingItem(items, i);
  }

  lemma InternalIsNotFrozen(i: Item)
    requires i.record.storage == INTERNAL_ONLY
    ensures !Frozen(i)
  {
    assert INTERNAL_ONLY[0] != REPOSITORY_FROZEN[0];
  }

  lemma UnsafeRecordFails(files: Files, records: seq<RightsRecord>, h: Hashes, narrative: Json, r: RightsRecord)
    requires UniqueIds(records) && EmptyTree(files) && Injective(h.sha256) && HexHashes(h) && OneComponent(records)
    requires (forall x | x in records && Eligible(x) :: GatesOpen(x)) && r in records
    requires !ClosedDisposition(r) || (Eligible(r) && !SafeRecord(r))
             || (Internal(r) && !Glob.Acceptable(InternalPattern(r.sourceId)))
    ensures !EveryRunVerifies(files, records, h, narrative)
  {
    var items := UnsafeRunFails(files, records, h, narrative, ".pdf", ".pdf", "");
    if Eligible(r) {
      var i :| i in items && i.record == r;
      if Internal(r) {
        InternalIsNotFrozen(i);
      }
      assert !ConformingItem(items, i);
    }
  }

  lemma ClosedGateStops(records: seq<RightsRecord>, responses: seq<Option<Fetched>>, r: RightsRecord)
    requires r in records && Eligible(r) && !GatesOpen(r)
    ensures Acquired(Queue(records), responses).Err?
  {
    var queue := Queue(records);
    QueueSorts(records);
    if Acquired(queue, responses).Ok? {
      var k :| 0 <= k < |queue| && queue[k] == r;
      EachAcquired(queue, responses, k);
    }
  }

  lemma {:induction false} EachAcquired(queue: seq<RightsRecord>, responses: seq<Option<Fetched>>, k: nat)
    requires k < |queue| && Acquired(queue, responses).Ok?
    ensures Acquire(queue[k], ResponseAt(responses, k)).Ok?
    decreases |queue|
  {
    var n := |queue| - 1;
    if k < n {
      EachAcquired(queue[..n], responses, k);
    }
  }

  /**
   The condition on the records, exactly: every successful run verifies, whatever is fetched, if and only if the
   records are safe, or a gate is closed that lets no run succeed.
   */
  lemma RecordsDecide(files: Files, records: seq<RightsRecord>, h: Hashes, narrative: Json)
    requires UniqueIds(records) && EmptyTree(files) && Injective(h.sha256) && HexHashes(h) && OneComponent(records)
    ensures EveryRunVerifies(files, records, h, narrative) <==>
              SafeRecords(records) || exists r :: r in records && Eligible(r) && !GatesOpen(r)
  {
    if r :| r in records && Eligible(r) && !GatesOpen(r) {
      forall responses: seq<Option<Fetched>> ensures Acquired(Queue(records), responses).Err? {
        ClosedGateStops(records, responses, r);
      }
    } else if SafeRecords(records) {
      SafeRunsVerify(files, records, h, narrative);
    } else {
      UnsafeRecordsFail(files, records, h, narrative);
    }
  }

  lemma UnsafeRecordsFail(files: Files, records: seq<RightsRecord>, h: Hashes, narrative: Json)
    requires UniqueIds(records) && EmptyTree(files) && Injective(h.sha256) && HexHashes(h) && OneComponent(records)
    requires (forall r | r in records && Eligible(r) :: GatesOpen(r)) && !SafeRecords(records)
    ensures !EveryRunVerifies(files, records, h, narrative)
  {
    if r :| r in records && (!ClosedDisposition(r) || (Eligible(r) && !SafeRecord(r))
                             || (Internal(r) && !Glob.Acceptable(InternalPattern(r.sourceId)))) {
      UnsafeRecordFails(files, records, h, narrative, r);
    } else {
      var r :| r in records && Internal(r) && !SafeInternal(records, r);
      var q :| q in records && Internal(q) && q.sourceId != r.sourceId && CanPrecede(r.sourceId, q.sourceId);
      PrecedenceFails(files, records, h, narrative, r, q);
    }
  }

  // ---------------------------------------------------------------- what the pattern condition means

  /** Only an id that continues the other after a dot can precede it, unless the other has pattern characters. */
  lemma OrdinaryIdsNest(id: string, other: string)
    requires Glob.Ordinary(id) && CanPrecede(id, other)
    ensures id == other || id + "." <= other
  {
    var s, t :| s in SUFFIXES && t in SUFFIXES && Precedes(id, s, other, t);
    assert id + ".*" == (id + ".") + "*";
    assert forall c | c in id + "." :: c in id || c == '.';
    Glob.OrdinaryPrefix(id + ".", other + t);
    ContinuedName(id, other, t);
  }

  lemma ContinuedName(id: string, other: string, suffix: string)
    requires suffix in {".pdf", ".xml", ".html"} && id + "." <= other + suffix
    ensures id == other || id + "." <= other
  {
    var name := other + suffix;
    assert name[..|id| + 1] == id + ".";
    assert name[..|id|] == id && name[|id|] == '.';
    if |id| < |other| {
      assert other[..|id| + 1] == name[..|id| + 1];
    } else {
      assert |id| == |other| by { assert name[|id|] == suffix[|id| - |other|]; }
      assert name[..|other|] == other;
    }
  }
}
