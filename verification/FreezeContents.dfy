/** What the files of a freeze package say, read back member by member: the index, the receipts and the record. */
module FreezeContents {
  import opened Outcomes
  import opened TextSort
  import opened Json
  import opened JsonAccess
  import opened FreezeVerifier
  import opened FreezePackage
  import opened FreezeProducer
  import opened FreezeRoundTrip

  /** The four media types with a suffix; there is no other. */
  lemma SuffixTable(contentType: string, suffix: string)
    ensures SuffixOf(contentType) == Some(suffix) <==>
              (contentType, suffix) in {("application/pdf", ".pdf"), ("application/xml", ".xml"), ("text/xml", ".xml"),
                                        ("text/html", ".html")}
  {
    assert "application/xml"[12] != "application/pdf"[12];
  }

  // ---------------------------------------------------------------- entries and receipts

  /** The committed copy's name relative to the package, for a source that is committed. */
  function CommittedName(i: Item): Option<string> {
    if i.record.storage == "REPOSITORY_FROZEN" then
      Some("sources/" + Joined(Components(i.record.sourceId + i.suffix)))
    else None
  }

  ghost predicate EntrySays(v: Json, i: Item, h: Hashes) {
    var r, body := i.record, i.fetched.body;
    && TextField(v, "source_id") == Some(r.sourceId)
    && TextField(v, "rights_disposition") == Some(r.disposition)
    && TextField(v, "acquisition_target_url") == Some(r.targetUrl)
    && TextField(v, "storage_classification") == Some(r.storage)
    && NullableField(v, "frozen_bytes_path") == Some(CommittedName(i))
    && TextField(v, "receipt_path") == Some("receipts/" + (r.sourceId + ".receipt.json"))
    && TextField(v, "receipt_id") == Some("OIC-CA-FREEZE-" + r.sourceId + "-v0.1")
    && IntField(v, "byte_length") == Some(|body|)
    && TextField(v, "sha256") == Some(h.sha256(body)) && TextField(v, "sha512") == Some(h.sha512(body))
    && TextField(v, "content_type") == Some(i.fetched.contentType)
  }

  /** The two members an entry takes over from the receipt. */
  ghost predicate EntryRepeats(v: Json, i: Item) {
    && Field(v, "final_url") == Field(JObject(i.fetched.details), "final_url")
    && Field(v, "retrieval_utc") == Field(JObject(i.fetched.details), "retrieval_utc")
  }

  lemma EntryContents(i: Item, h: Hashes)
    ensures var row := RowOf(i, h); EntrySays(EntryJson(row.entry, row.details), i, h)
  {
    var row := RowOf(i, h);
    EntryFirstHalf(row.entry, row.details);
    EntrySecondHalf(row.entry, row.details);
    assert TextField(EntryJson(row.entry, row.details), "content_type") == Some(i.fetched.contentType);
  }

  lemma EntryDetails(i: Item, h: Hashes)
    ensures var row := RowOf(i, h); EntryRepeats(EntryJson(row.entry, row.details), i)
  {
  }

  /** A receipt binds its own source's body, and keeps every other member it was made with. */
  ghost predicate ReceiptSays(v: Json, i: Item, h: Hashes) {
    var r, body := i.record, i.fetched.body;
    && TextField(v, "acquisition_target_url") == Some(r.targetUrl)
    && TextField(v, "receipt_id") == Some("OIC-CA-FREEZE-" + r.sourceId + "-v0.1")
    && IntField(v, "byte_length") == Some(|body|)
    && TextField(v, "sha256") == Some(h.sha256(body)) && TextField(v, "sha512") == Some(h.sha512(body))
    && forall key | key !in {"acquisition_target_url", "receipt_id", "byte_length", "sha256", "sha512"} ::
         Field(v, key) == Field(JObject(i.fetched.details), key)
  }

  lemma ReceiptContents(i: Item, h: Hashes)
    ensures ReadJson(ReceiptBytes(i, h)).Some? && ReceiptSays(ReadJson(ReceiptBytes(i, h)).value, i, h)
  {
    var view := ViewOf(EntryOf(i, h));
    ReadJsonLine(ReceiptJson(view, i.fetched.details));
    ReceiptMembers(view, i.fetched.details);
  }

  lemma ReceiptMembers(r: ReceiptView, details: map<string, Json>)
    ensures var v := ReceiptJson(r, details);
            && TextField(v, "acquisition_target_url") == Some(r.targetUrl)
            && TextField(v, "receipt_id") == Some(r.receiptId) && IntField(v, "byte_length") == Some(r.byteLength)
            && TextField(v, "sha256") == Some(r.sha256) && TextField(v, "sha512") == Some(r.sha512)
            && forall key | key !in {"acquisition_target_url", "receipt_id", "byte_length", "sha256", "sha512"} ::
                 Field(v, key) == Field(JObject(details), key)
  {
  }

  // ---------------------------------------------------------------- how many, and which

  function Places(records: seq<RightsRecord>, p: RightsRecord -> bool): set<nat> {
    set k: nat | k < |records| && p(records[k])
  }

  lemma PlacesStep(records: seq<RightsRecord>, p: RightsRecord -> bool)
    requires records != []
    ensures var n := |records| - 1;
            |Places(records, p)| == |Places(records[..n], p)| + if p(records[n]) then 1 else 0
  {
    var n := |records| - 1;
    var front := records[..n];
    assert forall k | 0 <= k < n :: front[k] == records[k];
    if p(records[n]) {
      assert Places(records, p) == Places(front, p) + {n} && n !in Places(front, p);
    } else {
      assert Places(records, p) == Places(front, p);
    }
  }

  lemma {:induction false} EligibleCount(records: seq<RightsRecord>)
    ensures |EligibleOf(records)| == |Places(records, Eligible)|
    decreases |records|
  {
    if records == [] {
      assert Places(records, Eligible) == {};
    } else {
      EligibleCount(records[..|records| - 1]);
      PlacesStep(records, Eligible);
    }
  }

  lemma {:induction false} BlockedCount(records: seq<RightsRecord>)
    ensures |BlockedOf(records)| == |Places(records, Blocked)|
    decreases |records|
  {
    if records == [] {
      assert Places(records, Blocked) == {};
    } else {
      BlockedCount(records[..|records| - 1]);
      PlacesStep(records, Blocked);
    }
  }

  ghost predicate BlockedId(records: seq<RightsRecord>, id: string) {
    exists k :: 0 <= k < |records| && records[k].sourceId == id && records[k].disposition == "BLOCKED_PENDING_CLEARANCE"
  }

  /** Ascending, and one for every record that is held back. */
  ghost predicate ListsBlocked(ids: seq<string>, records: seq<RightsRecord>) {
    && Ascending(ids)
    && |ids| == |set k: nat | k < |records| && records[k].disposition == "BLOCKED_PENDING_CLEARANCE"|
    && forall id :: id in ids <==> BlockedId(records, id)
  }

  lemma ListedIsBlocked(records: seq<RightsRecord>, j: nat)
    requires j < |BlockedIds(records)|
    ensures BlockedId(records, BlockedIds(records)[j])
  {
    var held := SortBy(BlockedOf(records), IdOf);
    assert held[j] in held && held[j] in BlockedOf(records) && held[j] in records;
    var k :| 0 <= k < |records| && records[k] == held[j];
    assert records[k].sourceId == BlockedIds(records)[j];
  }

  lemma BlockedIsListed(records: seq<RightsRecord>, k: nat)
    requires k < |records| && Blocked(records[k])
    ensures records[k].sourceId in BlockedIds(records)
  {
    var held := SortBy(BlockedOf(records), IdOf);
    assert records[k] in held;
    var j :| 0 <= j < |held| && held[j] == records[k];
    assert BlockedIds(records)[j] == records[k].sourceId;
  }

  lemma BlockedIdExact(records: seq<RightsRecord>, id: string)
    ensures id in BlockedIds(records) <==> BlockedId(records, id)
  {
    if id in BlockedIds(records) {
      var j: nat :| j < |BlockedIds(records)| && BlockedIds(records)[j] == id;
      ListedIsBlocked(records, j);
    }
    if k :| 0 <= k < |records| && records[k].sourceId == id && records[k].disposition == "BLOCKED_PENDING_CLEARANCE" {
      BlockedIsListed(records, k);
    }
  }

  lemma BlockedListed(records: seq<RightsRecord>)
    ensures ListsBlocked(BlockedIds(records), records)
  {
    SortSorts(BlockedOf(records), IdOf);
    BlockedCount(records);
    assert Places(records, Blocked)
        == set k: nat | k < |records| && records[k].disposition == "BLOCKED_PENDING_CLEARANCE";
    forall id ensures id in BlockedIds(records) <==> BlockedId(records, id) {
      BlockedIdExact(records, id);
    }
  }

  // ---------------------------------------------------------------- the index

  predicate Cleared(r: RightsRecord) {
    r.disposition == "CLEAR_REPOSITORY_FREEZE" || r.disposition == "CLEAR_INTERNAL_FREEZE_ONLY"
  }

  /** What the index and the narrative record both say of a run. */
  ghost predicate SummarySays(v: Json, records: seq<RightsRecord>) {
    var acquired := |set k: nat | k < |records| && Cleared(records[k])|;
    var held := |set k: nat | k < |records| && records[k].disposition == "BLOCKED_PENDING_CLEARANCE"|;
    && TextField(v, "freeze_id") == Some("CANADA-ACQUISITION-FREEZE-v0.1")
    && IntField(v, "source_unit_count") == Some(|records|)
    && IntField(v, "acquired_source_count") == Some(acquired)
    && IntField(v, "blocked_source_count") == Some(held)
    && TextField(v, "freeze_disposition")
       == Some(if held == 0 then "COMPLETE" else if acquired > 0 then "PARTIAL" else "BLOCKED")
    && exists ids :: Field(v, "blocked_source_ids") == Some(TextArray(ids)) && ListsBlocked(ids, records)
  }

  ghost predicate IndexSays(v: Json, records: seq<RightsRecord>, items: seq<Item>, h: Hashes) {
    && SummarySays(v, records)
    && exists entries: seq<Json> ::
         && ArrayField(v, "entries") == Some(entries) && |entries| == |items|
         && forall k | 0 <= k < |items| :: EntrySays(entries[k], items[k], h) && EntryRepeats(entries[k], items[k])
  }

  lemma Counted(items: seq<Item>, records: seq<RightsRecord>, responses: seq<Option<Fetched>>, h: Hashes)
    requires Acquired(Queue(records), responses) == Ok(items)
    ensures var index := IndexOf(items, records, h);
            && |index.rows| == |set k: nat | k < |records| && Cleared(records[k])|
            && ListsBlocked(index.blocked, records)
  {
    SortSorts(EligibleOf(records), IdOf);
    EligibleCount(records);
    BlockedListed(records);
    assert Places(records, Eligible) == set k: nat | k < |records| && Cleared(records[k]);
  }

  lemma SummaryOf(v: Json, index: Index, records: seq<RightsRecord>)
    requires ListsBlocked(index.blocked, records) && index.units == |records|
    requires |index.rows| == |set k: nat | k < |records| && Cleared(records[k])|
    requires TextField(v, "freeze_id") == Some("CANADA-ACQUISITION-FREEZE-v0.1")
    requires IntField(v, "source_unit_count") == Some(index.units)
    requires IntField(v, "acquired_source_count") == Some(|index.rows|)
    requires IntField(v, "blocked_source_count") == Some(|index.blocked|)
    requires TextField(v, "freeze_disposition") == Some(FreezeDisposition(index))
    requires Field(v, "blocked_source_ids") == Some(TextArray(index.blocked))
    ensures SummarySays(v, records)
  {
  }

  lemma IndexMembers(index: Index)
    ensures var v := IndexDocument(index);
            && TextField(v, "freeze_id") == Some("CANADA-ACQUISITION-FREEZE-v0.1")
            && IntField(v, "source_unit_count") == Some(index.units)
            && IntField(v, "acquired_source_count") == Some(|index.rows|)
            && IntField(v, "blocked_source_count") == Some(|index.blocked|)
            && TextField(v, "freeze_disposition") == Some(FreezeDisposition(index))
            && Field(v, "blocked_source_ids") == Some(TextArray(index.blocked))
            && ArrayField(v, "entries") == Some(RowsJson(index.rows))
  {
  }

  lemma RecordMembers(index: Index, notes: map<string, Json>)
    ensures var v := FreezeRecord(index, notes);
            && TextField(v, "freeze_id") == Some("CANADA-ACQUISITION-FREEZE-v0.1")
            && IntField(v, "source_unit_count") == Some(index.units)
            && IntField(v, "acquired_source_count") == Some(|index.rows|)
            && IntField(v, "blocked_source_count") == Some(|index.blocked|)
            && TextField(v, "freeze_disposition") == Some(FreezeDisposition(index))
            && Field(v, "blocked_source_ids") == Some(TextArray(index.blocked))
  {
  }

  lemma RecordLists(index: Index, notes: map<string, Json>)
    ensures var v := FreezeRecord(index, notes);
            && Field(v, "committed_to_repository_source_ids")
               == Some(TextArray(Sort(IdsStoredAs("REPOSITORY_FROZEN", index.rows))))
            && Field(v, "internal_only_source_ids") == Some(TextArray(Sort(IdsStoredAs("INTERNAL_ONLY", index.rows))))
  {
  }

  lemma EntriesSay(items: seq<Item>, h: Hashes)
    ensures var entries := RowsJson(RowsOf(items, h));
            && |entries| == |items|
            && forall k | 0 <= k < |items| :: EntrySays(entries[k], items[k], h) && EntryRepeats(entries[k], items[k])
  {
    forall k | 0 <= k < |items|
      ensures var v := RowsJson(RowsOf(items, h))[k]; EntrySays(v, items[k], h) && EntryRepeats(v, items[k])
    {
      EntryContents(items[k], h);
      EntryDetails(items[k], h);
    }
  }

  lemma IndexContents(items: seq<Item>, records: seq<RightsRecord>, responses: seq<Option<Fetched>>, h: Hashes)
    requires Acquired(Queue(records), responses) == Ok(items)
    ensures IndexSays(IndexDocument(IndexOf(items, records, h)), records, items, h)
  {
    var index := IndexOf(items, records, h);
    Counted(items, records, responses, h);
    IndexMembers(index);
    SummaryOf(IndexDocument(index), index, records);
    EntriesSay(items, h);
  }

  // ---------------------------------------------------------------- the narrative record

  /** Ascending, and one for every acquired source stored that way. */
  ghost predicate ListsStored(ids: seq<string>, items: seq<Item>, storage: string) {
    && Ascending(ids)
    && |ids| == |set k: nat | k < |items| && items[k].record.storage == storage|
    && forall id :: id in ids <==>
         exists k :: 0 <= k < |items| && items[k].record.sourceId == id && items[k].record.storage == storage
  }

  ghost predicate RecordSays(v: Json, records: seq<RightsRecord>, items: seq<Item>) {
    && SummarySays(v, records)
    && (exists ids :: Field(v, "committed_to_repository_source_ids") == Some(TextArray(ids))
                      && ListsStored(ids, items, "REPOSITORY_FROZEN"))
    && (exists ids :: Field(v, "internal_only_source_ids") == Some(TextArray(ids))
                      && ListsStored(ids, items, "INTERNAL_ONLY"))
  }

  function StoredAs(items: seq<Item>, storage: string): set<nat> {
    set k: nat | k < |items| && items[k].record.storage == storage
  }

  ghost predicate StoredId(items: seq<Item>, storage: string, id: string) {
    exists k :: 0 <= k < |items| && items[k].record.sourceId == id && items[k].record.storage == storage
  }

  lemma StoredCount(items: seq<Item>, storage: string)
    requires items != []
    ensures var n := |items| - 1;
            |StoredAs(items, storage)|
              == |StoredAs(items[..n], storage)| + (if items[n].record.storage == storage then 1 else 0)
  {
    var n := |items| - 1;
    var front := items[..n];
    assert forall k | 0 <= k < n :: front[k] == items[k];
    if items[n].record.storage == storage {
      assert StoredAs(items, storage) == StoredAs(front, storage) + {n} && n !in StoredAs(front, storage);
    } else {
      assert StoredAs(items, storage) == StoredAs(front, storage);
    }
  }

  lemma StoredIdStep(items: seq<Item>, storage: string, id: string)
    requires items != []
    ensures var n := |items| - 1;
            var last := items[n].record;
            StoredId(items, storage, id) <==>
              StoredId(items[..n], storage, id) || (last.sourceId == id && last.storage == storage)
  {
    var n := |items| - 1;
    var front := items[..n];
    assert forall k | 0 <= k < n :: front[k] == items[k];
    if k :| 0 <= k < |items| && items[k].record.sourceId == id && items[k].record.storage == storage && k < n {
      assert front[k] == items[k];
    }
  }

  lemma {:induction false} IdsStored(storage: string, items: seq<Item>, h: Hashes, id: string)
    ensures var ids := IdsStoredAs(storage, RowsOf(items, h));
            |ids| == |StoredAs(items, storage)| && (id in ids <==> StoredId(items, storage, id))
    decreases |items|
  {
    if items == [] {
      assert StoredAs(items, storage) == {};
    } else {
      var n := |items| - 1;
      IdsStored(storage, items[..n], h, id);
      StoredCount(items, storage);
      StoredIdStep(items, storage, id);
      assert RowsOf(items, h)[..n] == RowsOf(items[..n], h);
    }
  }

  lemma StoredListed(storage: string, items: seq<Item>, h: Hashes)
    ensures ListsStored(Sort(IdsStoredAs(storage, RowsOf(items, h))), items, storage)
  {
    var ids := IdsStoredAs(storage, RowsOf(items, h));
    SortSorts(ids, Self);
    IdsStored(storage, items, h, "");
    forall id ensures id in ids <==> StoredId(items, storage, id) {
      IdsStored(storage, items, h, id);
    }
    assert StoredAs(items, storage) == set k: nat | k < |items| && items[k].record.storage == storage;
    forall id ensures id in Sort(ids) <==>
                        exists k :: 0 <= k < |items| && items[k].record.sourceId == id
                            && items[k].record.storage == storage
    {
      assert id in Sort(ids) <==> StoredId(items, storage, id);
    }
  }

  lemma RecordContents(items: seq<Item>, records: seq<RightsRecord>, responses: seq<Option<Fetched>>, h: Hashes,
                       notes: map<string, Json>)
    requires Acquired(Queue(records), responses) == Ok(items)
    ensures RecordSays(FreezeRecord(IndexOf(items, records, h), notes), records, items)
  {
    var index := IndexOf(items, records, h);
    var v := FreezeRecord(index, notes);
    Counted(items, records, responses, h);
    RecordMembers(index, notes);
    SummaryOf(v, index, records);
    RecordLists(index, notes);
    StoredListed("REPOSITORY_FROZEN", items, h);
    StoredListed("INTERNAL_ONLY", items, h);
  }

  // ---------------------------------------------------------------- the whole package

  /** After a successful run the index and the record on disk say what was requested, acquired and held back. */
  lemma PackageContents(files: Files, records: seq<RightsRecord>, responses: seq<Option<Fetched>>, items: seq<Item>,
                        h: Hashes, notes: map<string, Json>)
    requires Acquired(Queue(records), responses) == Ok(items)
    ensures var record := FreezeRecord(IndexOf(items, records, h), notes);
            var tree := RunTree(files, records, items, h, record);
            && INDEX in tree && NARRATIVE in tree
            && ReadJson(tree[INDEX]).Some? && IndexSays(ReadJson(tree[INDEX]).value, records, items, h)
            && ReadJson(tree[NARRATIVE]).Some? && RecordSays(ReadJson(tree[NARRATIVE]).value, records, items)
  {
    var index := IndexOf(items, records, h);
    PackageAt(FrozenTree(files, items, h), index, FreezeRecord(index, notes));
    ReadJsonLine(IndexDocument(index));
    ReadJsonLine(FreezeRecord(index, notes));
    IndexContents(items, records, responses, h);
    RecordContents(items, records, responses, h, notes);
  }

  lemma PackageAt(files: Files, index: Index, narrative: Json)
    ensures var tree := PackageTree(files, index, narrative);
            INDEX in tree && tree[INDEX] == IndexBytes(index) && NARRATIVE in tree
                && tree[NARRATIVE] == LineBytes(narrative)
  {
    PackagePathsDiffer();
    assert |NARRATIVE.name| == 28 && |SUMS256.name| == 10 && |SUMS512.name| == 10;
  }
}
