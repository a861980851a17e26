/** The freeze producer: rights gates, frozen bytes, receipts, the index and the two hash ledgers. */
module FreezeProducer {
  import opened Outcomes
  import opened TextSort
  import opened Utf8
  import opened Json
  import opened JsonAccess
  import opened Disk
  import opened Ledger
  import opened FreezePackage
  import opened FreezeVerifier

  const MAX_BYTES := 64 * 1024 * 1024

  datatype FreezeError =
    | BlockedRequested
    | NotPermitted
    | RetrievalNotSupported
    | InternalUseNotSupported
    | TargetIsProvenanceIndex
    | RetrievalFailed
    | ResponseTooLarge
    | UnknownContentType
    | FileError
    | Interrupted

  /** An acquired source: its record, what was received, and the suffix of its file. */
  datatype Item = Item(record: RightsRecord, fetched: Fetched, suffix: string)

  /** An index entry; `details` are the fields the verifier does not read. */
  datatype Row = Row(entry: Entry, details: map<string, Json>)

  // ---------------------------------------------------------------- what is requested

  predicate Eligible(r: RightsRecord) {
    r.disposition == REPOSITORY_FREEZE || r.disposition == INTERNAL_FREEZE
  }

  function EligibleOf(records: seq<RightsRecord>): (r: seq<RightsRecord>)
    ensures forall x :: x in r <==> x in records && Eligible(x)
  {
    if records == [] then [] else
    var n := |records| - 1;
    assert records == records[..n] + [records[n]];
    EligibleOf(records[..n]) + if Eligible(records[n]) then [records[n]] else []
  }

  function IdOf(r: RightsRecord): string { r.sourceId }

  /** `sorted(eligible, key=source_id)` */
  function Queue(records: seq<RightsRecord>): seq<RightsRecord> {
    SortBy(EligibleOf(records), IdOf)
  }

  /** `acquire`: the rights gates, then the response. */
  function Acquire(r: RightsRecord, response: Option<Fetched>): (a: Result<Item, FreezeError>)
    ensures a.Ok? ==> a.value.record == r && response == Some(a.value.fetched) && IsSuffix(a.value.suffix)
    ensures a.Ok? ==> SuffixOf(a.value.fetched.contentType) == Some(a.value.suffix)
    ensures a.Ok? ==> r.acquisitionPermitted && r.retrievalSupported && r.internalUseSupported
    ensures a.Ok? ==> |a.value.fetched.body| <= MAX_BYTES && r.disposition != BLOCKED
    ensures a.Ok? && r.sourceId == "CA-3" ==> r.targetUrl != r.provenanceUrl
    ensures a == Err(BlockedRequested) <==> r.disposition == BLOCKED
  {
    if r.disposition == BLOCKED then Err(BlockedRequested)
    else if !r.acquisitionPermitted then Err(NotPermitted)
    else if !r.retrievalSupported then Err(RetrievalNotSupported)
    else if !r.internalUseSupported then Err(InternalUseNotSupported)
    else if r.targetUrl == r.provenanceUrl && r.sourceId == "CA-3" then Err(TargetIsProvenanceIndex)
    else if response.None? then Err(FreezeError.RetrievalFailed)
    else if |response.value.body| > MAX_BYTES then Err(ResponseTooLarge)
    else match SuffixOf(response.value.contentType)
      case None => Err(UnknownContentType)
      case Some(suffix) => Ok(Item(r, response.value, suffix))
  }

  /** What each refusal says of the record or the response, whatever the other gates say. */
  predicate Refused(e: FreezeError, r: RightsRecord, response: Option<Fetched>) {
    match e
    case BlockedRequested => r.disposition == BLOCKED
    case NotPermitted => !r.acquisitionPermitted
    case RetrievalNotSupported => !r.retrievalSupported
    case InternalUseNotSupported => !r.internalUseSupported
    case TargetIsProvenanceIndex => r.sourceId == "CA-3" && r.targetUrl == r.provenanceUrl
    case RetrievalFailed => response.None?
    case ResponseTooLarge => response.Some? && |response.value.body| > MAX_BYTES
    case UnknownContentType => response.Some? && SuffixOf(response.value.contentType).None?
    case FileError => false
    case Interrupted => false
  }

  function GateRank(e: FreezeError): nat {
    match e
    case BlockedRequested => 1
    case NotPermitted => 2
    case RetrievalNotSupported => 3
    case InternalUseNotSupported => 4
    case TargetIsProvenanceIndex => 5
    case RetrievalFailed => 6
    case ResponseTooLarge => 7
    case UnknownContentType => 8
    case FileError => 9
    case Interrupted => 10
  }

  /**
   A record is acquired exactly when no gate refuses it, and a refusal is the first one that applies: no
   record is requested before every rights gate has passed.
   */
  lemma FirstRefusalWins(r: RightsRecord, response: Option<Fetched>)
    ensures Acquire(r, response).Ok? <==> forall e: FreezeError :: !Refused(e, r, response)
    ensures forall e: FreezeError ::
              Acquire(r, response) == Err(e) <==>
                Refused(e, r, response) && forall f: FreezeError | GateRank(f) < GateRank(e) :: !Refused(f, r, response)
  {
    var a := Acquire(r, response);
    if a.Err? {
      assert Refused(a.error, r, response);
      assert forall f: FreezeError | GateRank(f) < GateRank(a.error) :: !Refused(f, r, response);
      forall e: FreezeError |
        Refused(e, r, response) && forall f: FreezeError | GateRank(f) < GateRank(e) :: !Refused(f, r, response)
        ensures e == a.error
      {
        assert GateRank(e) == GateRank(a.error);
      }
    }
  }

  function ResponseAt(responses: seq<Option<Fetched>>, k: nat): Option<Fetched> {
    if k < |responses| then responses[k] else None
  }

  /** What the queue yields when the k-th request gets the k-th response. The first refusal ends it. */
  function Acquired(queue: seq<RightsRecord>, responses: seq<Option<Fetched>>): (a: Result<seq<Item>, FreezeError>)
    ensures a.Ok? ==> |a.value| == |queue|
    ensures a.Ok? ==> forall k | 0 <= k < |queue| :: a.value[k].record == queue[k] && IsSuffix(a.value[k].suffix)
  {
    if queue == [] then Ok([]) else
    var n := |queue| - 1;
    var earlier :- Acquired(queue[..n], responses);
    var item :- Acquire(queue[n], ResponseAt(responses, n));
    Ok(earlier + [item])
  }

  // ---------------------------------------------------------------- what is written

  predicate Frozen(i: Item) { i.record.storage == REPOSITORY_FROZEN }

  function BytesName(i: Item): string { i.record.sourceId + i.suffix }

  /** The committed copy of a frozen source, or the internal one. */
  function BytesPath(i: Item): Path {
    Resolve(if Frozen(i) then SOURCE_DIR else INTERNAL_DIR, BytesName(i))
  }

  /** `path.relative_to(FREEZE_DIR)` for a committed copy. */
  function RelativeName(i: Item): string {
    "sources/" + Joined(Components(BytesName(i)))
  }

  function ReceiptPath(i: Item): Path {
    Resolve(RECEIPT_DIR, ReceiptName(i.record.sourceId))
  }

  function EntryOf(i: Item, h: Hashes): Entry {
    var r, body := i.record, i.fetched.body;
    Entry(r.sourceId, r.disposition, r.targetUrl, r.storage,
          if Frozen(i) then Some(RelativeName(i)) else None,
          ReceiptRelative(r.sourceId), "OIC-CA-FREEZE-" + r.sourceId + "-v0.1",
          |body|, h.sha256(body), h.sha512(body))
  }

  function ViewOf(e: Entry): ReceiptView {
    ReceiptView(e.sha256, e.sha512, e.byteLength, e.targetUrl, e.receiptId)
  }

  function ReceiptBytes(i: Item, h: Hashes): Bytes {
    LineBytes(ReceiptJson(ViewOf(EntryOf(i, h)), i.fetched.details))
  }

  function RowOf(i: Item, h: Hashes): Row {
    Row(EntryOf(i, h),
        (map k | k in i.fetched.details && k in {"final_url", "retrieval_utc"} :: i.fetched.details[k])
        ["content_type" := JString(i.fetched.contentType)])
  }

  function RowsOf(items: seq<Item>, h: Hashes): seq<Row> {
    seq(|items|, k requires 0 <= k < |items| => RowOf(items[k], h))
  }

  function EntriesOf(rows: seq<Row>): seq<Entry> {
    seq(|rows|, k requires 0 <= k < |rows| => rows[k].entry)
  }

  function Stored(files: Files, i: Item, h: Hashes): Files {
    files[BytesPath(i) := i.fetched.body][ReceiptPath(i) := ReceiptBytes(i, h)]
  }

  /** The tree after the bytes and receipts of all items were written. */
  function FrozenTree(files: Files, items: seq<Item>, h: Hashes): Files {
    if items == [] then files else Stored(FrozenTree(files, items[..|items| - 1], h), items[|items| - 1], h)
  }

  function LedgerKey(e: Entry): string {
    if e.bytesPath.Some? then e.bytesPath.value else InternalKey(e.sourceId)
  }

  function Sums256(rows: seq<Row>): seq<Sum> {
    seq(|rows|, k requires 0 <= k < |rows| => Sum(rows[k].entry.sha256, LedgerKey(rows[k].entry)))
  }

  function Sums512(rows: seq<Row>): seq<Sum> {
    seq(|rows|, k requires 0 <= k < |rows| => Sum(rows[k].entry.sha512, LedgerKey(rows[k].entry)))
  }

  function RowsJson(rows: seq<Row>): seq<Json> {
    seq(|rows|, k requires 0 <= k < |rows| => EntryJson(rows[k].entry, rows[k].details))
  }

  /** What the producer returns and writes as INDEX.json. */
  datatype Index = Index(rows: seq<Row>, blocked: seq<string>, units: nat)

  predicate Blocked(r: RightsRecord) { r.disposition == BLOCKED }

  function BlockedIds(records: seq<RightsRecord>): seq<string> {
    var held := SortBy(BlockedOf(records), IdOf);
    seq(|held|, k requires 0 <= k < |held| => held[k].sourceId)
  }

  function BlockedOf(records: seq<RightsRecord>): (r: seq<RightsRecord>)
    ensures forall x :: x in r <==> x in records && Blocked(x)
  {
    if records == [] then [] else
    var n := |records| - 1;
    assert records == records[..n] + [records[n]];
    BlockedOf(records[..n]) + if Blocked(records[n]) then [records[n]] else []
  }

  function IndexOf(items: seq<Item>, records: seq<RightsRecord>, h: Hashes): Index {
    Index(RowsOf(items, h), BlockedIds(records), |records|)
  }

  function FreezeDisposition(index: Index): string {
    if index.blocked == [] then "COMPLETE" else if index.rows != [] then "PARTIAL" else "BLOCKED"
  }

  function IndexDocument(index: Index): Json {
    IndexJson(RowsJson(index.rows), map[
      "acquired_source_count" := JInt(|index.rows|),
      "blocked_source_count" := JInt(|index.blocked|),
      "blocked_source_ids" := TextArray(index.blocked),
      "freeze_disposition" := JString(FreezeDisposition(index)),
      "freeze_id" := JString("CANADA-ACQUISITION-FREEZE-v0.1"),
      "source_unit_count" := JInt(index.units)])
  }

  function IndexBytes(index: Index): Bytes {
    LineBytes(IndexDocument(index))
  }

  function IdsStoredAs(storage: string, rows: seq<Row>): seq<string> {
    if rows == [] then [] else
    var n := |rows| - 1;
    IdsStoredAs(storage, rows[..n]) + if rows[n].entry.storage == storage then [rows[n].entry.sourceId] else []
  }

  /** `freeze_record`: the narrative record; `notes` are the members that are not computed from the index. */
  function FreezeRecord(index: Index, notes: map<string, Json>): Json {
    JObject(notes["acquired_source_count" := JInt(|index.rows|)]
                 ["blocked_source_count" := JInt(|index.blocked|)]
                 ["blocked_source_ids" := TextArray(index.blocked)]
                 ["committed_to_repository_source_ids" := TextArray(Sort(IdsStoredAs(REPOSITORY_FROZEN, index.rows)))]
                 ["freeze_disposition" := JString(FreezeDisposition(index))]
                 ["freeze_id" := JString("CANADA-ACQUISITION-FREEZE-v0.1")]
                 ["internal_only_source_ids" := TextArray(Sort(IdsStoredAs(INTERNAL_ONLY, index.rows)))]
                 ["source_unit_count" := JInt(index.units)])
  }

  function PackageTree(files: Files, index: Index, narrative: Json): Files {
    files[INDEX := IndexBytes(index)]
         [NARRATIVE := LineBytes(narrative)]
         [SUMS256 := Encode(LedgerText(Sums256(index.rows)))]
         [SUMS512 := Encode(LedgerText(Sums512(index.rows)))]
  }

  // ---------------------------------------------------------------- the programs

  predicate InPackage(p: Path) {
    p == INDEX || p == NARRATIVE || p == SUMS256 || p == SUMS512
  }

  /** The index, the narrative record and the two ledgers are as they were. */
  ghost predicate PackageUntouched(before: Files, after: Files) {
    forall p | InPackage(p) :: (p in after <==> p in before) && (p in before ==> after[p] == before[p])
  }

  lemma PackageNames(p: Path)
    requires InPackage(p)
    ensures p.name[|p.name| - 1] == 'n' || p.name[|p.name| - 1] == 'S'
    ensures !EndsWith(p.name, ".pdf") && !EndsWith(p.name, ".xml") && !EndsWith(p.name, ".html")
    ensures !EndsWith(p.name, ".receipt.json")
  {
    assert p.name[|p.name| - 6] != ".receipt.json"[7];
  }

  /** Whatever its identifier, no source is stored over a file of the package. */
  lemma StoredElsewhere(i: Item)
    requires IsSuffix(i.suffix)
    ensures !InPackage(BytesPath(i)) && !InPackage(ReceiptPath(i))
  {
    ResolvedSuffix(if Frozen(i) then SOURCE_DIR else INTERNAL_DIR, i.record.sourceId, i.suffix);
    ResolvedSuffix(RECEIPT_DIR, i.record.sourceId, ".receipt.json");
    if InPackage(BytesPath(i)) {
      PackageNames(BytesPath(i));
    }
    if InPackage(ReceiptPath(i)) {
      PackageNames(ReceiptPath(i));
    }
  }

  lemma OnlyPartsElsewhere(before: Files, after: Files, target: Path, clean: bool)
    requires OnlyParts(before, after, target, clean) && !InPackage(target)
    ensures PackageUntouched(before, after)
  {
    forall p | InPackage(p) ensures (p in after <==> p in before) && (p in before ==> after[p] == before[p]) {
      PackageNames(p);
      if p in after && p !in before {
        PartIsLonger(p, target);
      }
    }
  }

  function ErrorOf(r: Ending<()>): FreezeError {
    if r.Crashed? then Interrupted else FileError
  }

  /**
   One pass of the loop: the bytes, then the receipt. A committed copy outside the freeze directory has no
   relative name, and a file in a directory that does not exist is an OS error.
   */
  method StoreItem(disk: FileSystem, i: Item, h: Hashes) returns (r: Result<(), FreezeError>)
    requires IsSuffix(i.suffix)
    modifies disk
    ensures r.Ok? ==> Placeable(i) && disk.files == Stored(old(disk.files), i, h)
    ensures PackageUntouched(old(disk.files), disk.files)
    ensures r.Err? ==> r.error == FileError || r.error == Interrupted
    ensures disk.faults >= old(disk.faults) && (r.Ok? <==> Placeable(i) && disk.faults == old(disk.faults))
    ensures disk.faults == old(disk.faults) ==> r != Err(Interrupted)
  {
    StoredElsewhere(i);
    if !Placeable(i) {
      return Err(FileError);
    }
    var ending := AtomicWrite(disk, BytesPath(i), i.fetched.body);
    OnlyPartsElsewhere(old(disk.files), disk.files, BytesPath(i), Clean(ending));
    if !ending.Done? {
      return Err(ErrorOf(ending));
    }
    ghost var between := disk.files;
    ending := AtomicWrite(disk, ReceiptPath(i), ReceiptBytes(i, h));
    OnlyPartsElsewhere(between, disk.files, ReceiptPath(i), Clean(ending));
    UntouchedTransitive(old(disk.files), between, disk.files);
    if !ending.Done? {
      return Err(ErrorOf(ending));
    }
    return Ok(());
  }

  lemma {:induction false} RefusalPersists(queue: seq<RightsRecord>, responses: seq<Option<Fetched>>, k: nat)
    requires k <= |queue| && Acquired(queue[..k], responses).Err?
    ensures Acquired(queue, responses) == Err(Acquired(queue[..k], responses).error)
    decreases |queue|
  {
    if k == |queue| {
      assert queue[..k] == queue;
    } else {
      assert queue[..|queue| - 1][..k] == queue[..k];
      RefusalPersists(queue[..|queue| - 1], responses, k);
    }
  }

  lemma AcquiredStep(queue: seq<RightsRecord>, responses: seq<Option<Fetched>>, k: nat)
    requires k < |queue| && Acquired(queue[..k], responses).Ok?
    ensures var one := Acquire(queue[k], ResponseAt(responses, k));
            var next := Acquired(queue[..k + 1], responses);
            if one.Err? then next == Err(one.error) else next == Ok(Acquired(queue[..k], responses).value + [one.value])
  {
    assert queue[..k + 1][..k] == queue[..k];
  }

  /** A committed copy must be named relative to the freeze directory. */
  predicate Placeable(i: Item) {
    Frozen(i) ==> !Absolute(BytesName(i))
  }

  predicate AllPlaceable(items: seq<Item>) {
    forall i | i in items :: Placeable(i)
  }

  lemma FrozenTreeStep(files: Files, items: seq<Item>, item: Item, h: Hashes)
    ensures FrozenTree(files, items + [item], h) == Stored(FrozenTree(files, items, h), item, h)
  {
    var all := items + [item];
    assert all[..|all| - 1] == items && all[|all| - 1] == item;
  }

  lemma RowsStep(items: seq<Item>, item: Item, h: Hashes)
    ensures RowsOf(items + [item], h) == RowsOf(items, h) + [RowOf(item, h)]
  {
  }

  lemma UntouchedTransitive(a: Files, b: Files, c: Files)
    requires PackageUntouched(a, b) && PackageUntouched(b, c)
    ensures PackageUntouched(a, c)
  {
  }

  /** After the first requests of the queue succeeded and were stored. */
  ghost predicate Progress(done: seq<RightsRecord>, responses: seq<Option<Fetched>>, items: seq<Item>, rows: seq<Row>,
                           before: Files, now: Files, h: Hashes)
  {
    && Acquired(done, responses) == Ok(items) && rows == RowsOf(items, h)
    && now == FrozenTree(before, items, h) && AllPlaceable(items)
  }

  lemma ProgressStep(queue: seq<RightsRecord>, k: nat, responses: seq<Option<Fetched>>, items: seq<Item>,
                     rows: seq<Row>, before: Files, now: Files, h: Hashes, item: Item)
    requires k < |queue| && Progress(queue[..k], responses, items, rows, before, now, h)
    requires Acquire(queue[k], ResponseAt(responses, k)) == Ok(item) && Placeable(item)
    ensures Progress(queue[..k + 1], responses, items + [item], rows + [RowOf(item, h)], before,
                     Stored(now, item, h), h)
  {
    AcquiredStep(queue, responses, k);
    FrozenTreeStep(before, items, item, h);
    RowsStep(items, item, h);
  }

  lemma RefusedStep(queue: seq<RightsRecord>, k: nat, responses: seq<Option<Fetched>>, items: seq<Item>)
    requires k < |queue| && Acquired(queue[..k], responses) == Ok(items)
    requires Acquire(queue[k], ResponseAt(responses, k)).Err?
    ensures Acquired(queue, responses) == Err(Acquire(queue[k], ResponseAt(responses, k)).error)
  {
    AcquiredStep(queue, responses, k);
    RefusalPersists(queue, responses, k + 1);
  }

  lemma {:induction false} AcquiredAt(queue: seq<RightsRecord>, responses: seq<Option<Fetched>>, k: nat)
    requires k < |queue| && Acquired(queue, responses).Ok?
    ensures Acquire(queue[k], ResponseAt(responses, k)) == Ok(Acquired(queue, responses).value[k])
    decreases |queue|
  {
    var n := |queue| - 1;
    if k < n {
      AcquiredAt(queue[..n], responses, k);
    }
  }

  /** A source that cannot be placed is among the acquired, if all are. */
  lemma UnplaceablePersists(queue: seq<RightsRecord>, k: nat, responses: seq<Option<Fetched>>, item: Item)
    requires k < |queue| && Acquire(queue[k], ResponseAt(responses, k)) == Ok(item)
    ensures Acquired(queue, responses).Ok? && !Placeable(item) ==> !AllPlaceable(Acquired(queue, responses).value)
  {
    if Acquired(queue, responses).Ok? {
      AcquiredAt(queue, responses, k);
      assert item in Acquired(queue, responses).value;
    }
  }

  lemma StoppedStep(queue: seq<RightsRecord>, k: nat, responses: seq<Option<Fetched>>, items: seq<Item>)
    requires k < |queue| && Acquired(queue[..k], responses) == Ok(items)
    ensures var one, all := Acquire(queue[k], ResponseAt(responses, k)), Acquired(queue, responses);
            && (one.Err? ==> all == Err(one.error))
            && (one.Ok? && !Placeable(one.value) && all.Ok? ==> !AllPlaceable(all.value))
  {
    if Acquire(queue[k], ResponseAt(responses, k)).Err? {
      RefusedStep(queue, k, responses, items);
    } else {
      UnplaceablePersists(queue, k, responses, Acquire(queue[k], ResponseAt(responses, k)).value);
    }
  }

  /** One pass of the loop: the request, then the two files. */
  method FreezeOne(disk: FileSystem, r: RightsRecord, response: Option<Fetched>, h: Hashes)
    returns (item: Result<Item, FreezeError>)
    modifies disk
    ensures PackageUntouched(old(disk.files), disk.files) && disk.faults >= old(disk.faults)
    ensures item.Ok? ==>
              && Acquire(r, response) == Ok(item.value) && Placeable(item.value)
              && disk.files == Stored(old(disk.files), item.value, h)
    ensures item.Ok? <==>
              disk.faults == old(disk.faults) && Acquire(r, response).Ok? && Placeable(Acquire(r, response).value)
    ensures item.Err? && item.error != FileError && item.error != Interrupted ==>
              Acquire(r, response) == Err(item.error)
    ensures Acquire(r, response).Err? ==> item == Err(Acquire(r, response).error) && disk.faults == old(disk.faults)
    ensures disk.faults == old(disk.faults) ==> item != Err(Interrupted)
  {
    item := Acquire(r, response);
    if item.Ok? {
      var stored := StoreItem(disk, item.value, h);
      if stored.Err? {
        return Err(stored.error);
      }
    }
  }

  /**
   `freeze`: acquires every eligible record in id order. It succeeds only if every gate does, and then the
   tree is exactly the frozen one; a refusal leaves the index, the narrative and the ledgers as they were.
   */
  method Freeze(disk: FileSystem, records: seq<RightsRecord>, responses: seq<Option<Fetched>>, h: Hashes)
    returns (r: Result<Index, FreezeError>)
    modifies disk
    ensures r.Ok? ==>
              && Acquired(Queue(records), responses).Ok?
              && var items := Acquired(Queue(records), responses).value;
              && r.value == IndexOf(items, records, h) && disk.files == FrozenTree(old(disk.files), items, h)
              && AllPlaceable(items)
    ensures r.Err? && r.error != FileError && r.error != Interrupted ==>
              Acquired(Queue(records), responses) == Err(r.error)
    ensures PackageUntouched(old(disk.files), disk.files)
    ensures disk.faults >= old(disk.faults)
    ensures r.Ok? <==>
              && disk.faults == old(disk.faults) && Acquired(Queue(records), responses).Ok?
              && AllPlaceable(Acquired(Queue(records), responses).value)
    ensures disk.faults == old(disk.faults) ==> r != Err(Interrupted)
  {
    var queue := Queue(records);
    var rows: seq<Row> := [];
    ghost var items: seq<Item> := [];
    for k := 0 to |queue|
      invariant Progress(queue[..k], responses, items, rows, old(disk.files), disk.files, h)
      invariant PackageUntouched(old(disk.files), disk.files) && disk.faults == old(disk.faults)
    {
      ghost var before := disk.files;
      var acquired := FreezeOne(disk, queue[k], ResponseAt(responses, k), h);
      UntouchedTransitive(old(disk.files), before, disk.files);
      if acquired.Err? {
        StoppedStep(queue, k, responses, items);
        return Err(acquired.error);
      }
      ProgressStep(queue, k, responses, items, rows, old(disk.files), before, h, acquired.value);
      rows := rows + [RowOf(acquired.value, h)];
      items := items + [acquired.value];
    }
    assert queue[..|queue|] == queue;
    return Ok(Index(rows, BlockedIds(records), |records|));
  }

  /** `write_package`: the index, the narrative record and the two ledgers. */
  method WritePackage(disk: FileSystem, index: Index, narrative: Json) returns (r: Result<(), FreezeError>)
    modifies disk
    ensures r.Ok? ==> disk.files == PackageTree(old(disk.files), index, narrative)
    ensures disk.faults >= old(disk.faults) && (r.Ok? <==> disk.faults == old(disk.faults))
    ensures forall p | p in old(disk.files) && p !in {INDEX, NARRATIVE, SUMS256, SUMS512} ::
              p in disk.files && disk.files[p] == old(disk.files)[p]
  {
    var ending := AtomicWrite(disk, INDEX, IndexBytes(index));
    if !ending.Done? {
      return Err(ErrorOf(ending));
    }
    ending := AtomicWrite(disk, NARRATIVE, LineBytes(narrative));
    if !ending.Done? {
      return Err(ErrorOf(ending));
    }
    ending := AtomicWrite(disk, SUMS256, Encode(LedgerText(Sums256(index.rows))));
    if !ending.Done? {
      return Err(ErrorOf(ending));
    }
    ending := AtomicWrite(disk, SUMS512, Encode(LedgerText(Sums512(index.rows))));
    if !ending.Done? {
      return Err(ErrorOf(ending));
    }
    return Ok(());
  }

  /** The producer's `main`: freeze, then write the package. */
  method Run(disk: FileSystem, records: seq<RightsRecord>, responses: seq<Option<Fetched>>, h: Hashes,
             notes: Index -> map<string, Json>)
    returns (r: Result<Index, FreezeError>)
    modifies disk
    ensures r.Ok? ==>
              && Acquired(Queue(records), responses).Ok?
              && var items := Acquired(Queue(records), responses).value;
              && r.value == IndexOf(items, records, h) && AllPlaceable(items)
              && disk.files == PackageTree(FrozenTree(old(disk.files), items, h), r.value,
                                           FreezeRecord(r.value, notes(r.value)))
    ensures r.Ok? <==>
              && disk.faults == old(disk.faults) && Acquired(Queue(records), responses).Ok?
              && AllPlaceable(Acquired(Queue(records), responses).value)
  {
    var index := Freeze(disk, records, responses, h);
    if index.Err? {
      return Err(index.error);
    }
    var written := WritePackage(disk, index.value, FreezeRecord(index.value, notes(index.value)));
    if written.Err? {
      return Err(written.error);
    }
    return Ok(index.value);
  }
}
