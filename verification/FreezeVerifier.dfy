/**
 The offline freeze verifier: every disagreement between the index, the rights records, the receipts,
 the frozen bytes and the two hash ledgers, in the order it is found. An empty list is a pass.
 */
module FreezeVerifier {
  import opened Outcomes
  import opened Text
  import opened Utf8
  import opened JsonAccess
  import opened Disk
  import opened Ledger
  import opened FreezePackage
  import Glob

  datatype Failure =
    | BlockedHasEntry(id: string)
    | ClearedHasNoEntry(id: string)
    | ReceiptWithoutEntry(name: string)
    | NoRightsRecord(id: string)
    | DispositionDisagrees(id: string)
    | TargetDisagrees(id: string)
    | TargetIsProvenance(id: string)
    | MissingReceipt(id: string)
    | ReceiptDisagrees(id: string, field: string)
    | NoBytePath(id: string)
    | InternalNamesAPath(id: string)
    | UnexpectedStorage(id: string)
    | BytesMissing(id: string)
    | LengthMismatch(id: string)
    | Sha256Mismatch(id: string)
    | Sha512Mismatch(id: string)
    | Sums256Disagree(id: string)
    | Sums512Disagree(id: string)

  /** A file is absent or does not read as the verifier expects: verification fails closed. */
  datatype VerifyError = Unreadable

  type Files = map<Path, Bytes>

  /** What the verifier has read before it looks at any entry. */
  datatype Context = Context(
    files: Files, bySource: map<string, RightsRecord>, sums256: map<string, string>, sums512: map<string, string>,
    hashes: Hashes)

  /** `by_source`: later records replace earlier ones. */
  function BySource(records: seq<RightsRecord>): map<string, RightsRecord> {
    if records == [] then map[]
    else BySource(records[..|records| - 1])[records[|records| - 1].sourceId := records[|records| - 1]]
  }

  // ---------------------------------------------------------------- coverage

  function CoverageAt(id: string, disposition: string, entryIds: set<string>): seq<Failure> {
    If(disposition == BLOCKED && id in entryIds, BlockedHasEntry(id))
    + If(disposition != BLOCKED && id !in entryIds, ClearedHasNoEntry(id))
  }

  function Coverage(ids: seq<string>, bySource: map<string, RightsRecord>, entryIds: set<string>): seq<Failure>
    requires forall id | id in ids :: id in bySource
  {
    if ids == [] then []
    else Coverage(ids[..|ids| - 1], bySource, entryIds)
         + CoverageAt(ids[|ids| - 1], bySource[ids[|ids| - 1]].disposition, entryIds)
  }

  /** `(freeze_dir / "receipts").glob("*.receipt.json")` */
  function ReceiptFiles(files: Files): set<string> {
    set p | p in files && p.dir == RECEIPT_DIR && EndsWith(p.name, ".receipt.json") :: p.name
  }

  function Extras(names: seq<string>): seq<Failure> {
    seq(|names|, k requires 0 <= k < |names| => ReceiptWithoutEntry(names[k]))
  }

  // ---------------------------------------------------------------- one entry

  /** `f"{source_id}.*"` */
  function InternalPattern(id: string): string { id + ".*" }

  /** The pattern below the internal directory: where to look, and for which names. */
  function PatternPath(id: string): Path { Resolve(INTERNAL_DIR, InternalPattern(id)) }

  /** An absolute pattern is refused, and so is `**` inside a component. */
  predicate PatternAccepted(id: string) {
    !Absolute(id) && Glob.Acceptable(PatternPath(id).name)
  }

  predicate IsCandidate(p: Path, id: string) {
    p.dir == PatternPath(id).dir && Glob.Matches(PatternPath(id).name, p.name)
  }

  /** The names `INTERNAL_BYTES_DIR.glob(f"{source_id}.*")` finds, for folders without pattern characters. */
  function Candidates(files: Files, id: string): set<string> {
    set p | p in files && IsCandidate(p, id) :: p.name
  }

  /** The first candidate in order. */
  function FirstCandidate(names: set<string>, id: string): Path
    requires names != {}
  {
    Path(PatternPath(id).dir, Least(names))
  }

  function InternalKey(id: string): string { id + " (INTERNAL_ONLY)" }

  function Lookup(sums: map<string, string>, key: string): Option<string> {
    if key in sums then Some(sums[key]) else None
  }

  /** `_check_ledgers` */
  function LedgerFailures(e: Entry, key: string, c: Context): seq<Failure> {
    If(Lookup(c.sums256, key) != Some(e.sha256), Sums256Disagree(e.sourceId))
    + If(Lookup(c.sums512, key) != Some(e.sha512), Sums512Disagree(e.sourceId))
  }

  function RightsFailures(e: Entry, r: RightsRecord): seq<Failure> {
    If(r.disposition != e.disposition, DispositionDisagrees(e.sourceId))
    + If(e.targetUrl != r.targetUrl, TargetDisagrees(e.sourceId))
    + If(e.targetUrl == r.provenanceUrl, TargetIsProvenance(e.sourceId))
  }

  function ReceiptFailures(e: Entry, v: ReceiptView): seq<Failure> {
    If(v.sha256 != e.sha256, ReceiptDisagrees(e.sourceId, "sha256"))
    + If(v.sha512 != e.sha512, ReceiptDisagrees(e.sourceId, "sha512"))
    + If(v.byteLength != e.byteLength, ReceiptDisagrees(e.sourceId, "byte_length"))
    + If(v.targetUrl != e.targetUrl, ReceiptDisagrees(e.sourceId, "acquisition_target_url"))
    + If(v.receiptId != e.receiptId, ReceiptDisagrees(e.sourceId, "receipt_id"))
  }

  function ByteFailures(e: Entry, path: Path, key: string, c: Context): seq<Failure> {
    if path !in c.files then [BytesMissing(e.sourceId)] else
    var data := c.files[path];
    If(|data| != e.byteLength, LengthMismatch(e.sourceId))
    + If(c.hashes.sha256(data) != e.sha256, Sha256Mismatch(e.sourceId))
    + If(c.hashes.sha512(data) != e.sha512, Sha512Mismatch(e.sourceId))
    + LedgerFailures(e, key, c)
  }

  /** The storage checks; an internal-only entry whose pattern is refused stops the verification. */
  function StorageFailures(e: Entry, c: Context): Result<seq<Failure>, VerifyError> {
    if e.storage == REPOSITORY_FROZEN then
      if e.bytesPath.None? then Ok([NoBytePath(e.sourceId)])
      else Ok(ByteFailures(e, Resolve(FREEZE_DIR, e.bytesPath.value), e.bytesPath.value, c))
    else if e.storage == INTERNAL_ONLY then
      if !PatternAccepted(e.sourceId) then Err(Unreadable) else
      var names := Candidates(c.files, e.sourceId);
      Ok(If(e.bytesPath.Some?, InternalNamesAPath(e.sourceId))
         + if names == {} then LedgerFailures(e, InternalKey(e.sourceId), c)
           else ByteFailures(e, FirstCandidate(names, e.sourceId), InternalKey(e.sourceId), c))
    else Ok([UnexpectedStorage(e.sourceId)])
  }

  function EntryFailures(e: Entry, c: Context): Result<seq<Failure>, VerifyError> {
    if e.sourceId !in c.bySource then Ok([NoRightsRecord(e.sourceId)]) else
    var rights := RightsFailures(e, c.bySource[e.sourceId]);
    var receiptPath := Resolve(FREEZE_DIR, e.receiptPath);
    if receiptPath !in c.files then Ok(rights + [MissingReceipt(e.sourceId)]) else
    match ReadReceipt(c.files[receiptPath])
    case None => Err(Unreadable)
    case Some(v) =>
      var storage :- StorageFailures(e, c);
      Ok(rights + ReceiptFailures(e, v) + storage)
  }

  function ReadReceipt(data: Bytes): Option<ReceiptView> {
    var v :- ReadJson(data);
    DecodeReceipt(v)
  }

  function AllEntryFailures(entries: seq<Entry>, c: Context): Result<seq<Failure>, VerifyError> {
    if entries == [] then Ok([]) else
    var earlier :- AllEntryFailures(entries[..|entries| - 1], c);
    var last :- EntryFailures(entries[|entries| - 1], c);
    Ok(earlier + last)
  }

  // ---------------------------------------------------------------- the whole verification

  function ReadText(files: Files, path: Path): Option<string> {
    if path in files then Decode(files[path]) else None
  }

  function ReadLedger(files: Files, path: Path): Option<map<string, string>> {
    var text :- ReadText(files, path);
    match ParseSums(text)
    case Ok(sums) => Some(sums)
    case Err(_) => None
  }

  function ReadIndex(files: Files): Option<seq<Entry>> {
    if INDEX in files then DecodeIndex(files[INDEX]) else None
  }

  function EntryIds(entries: seq<Entry>): set<string> {
    set e | e in entries :: e.sourceId
  }

  function ExpectedReceipts(entries: seq<Entry>): set<string> {
    set e | e in entries :: ReceiptName(e.sourceId)
  }

  function Report(entries: seq<Entry>, c: Context): Result<seq<Failure>, VerifyError> {
    var coverage := Coverage(Sorted(c.bySource.Keys), c.bySource, EntryIds(entries));
    var extras := Extras(Sorted(ReceiptFiles(c.files) - ExpectedReceipts(entries)));
    var perEntry :- AllEntryFailures(entries, c);
    Ok(coverage + extras + perEntry)
  }

  /** `verify`, as a function of the files and the rights records. */
  function Verification(files: Files, rights: seq<RightsRecord>, hashes: Hashes): Result<seq<Failure>, VerifyError> {
    match (ReadIndex(files), ReadLedger(files, SUMS256), ReadLedger(files, SUMS512))
    case (Some(entries), Some(sums256), Some(sums512)) =>
      Report(entries, Context(files, BySource(rights), sums256, sums512, hashes))
    case _ => Err(Unreadable)
  }

  // ---------------------------------------------------------------- agreement

  /** The bytes, the entry and both ledgers agree. */
  predicate BytesAgree(e: Entry, path: Path, key: string, c: Context) {
    && path in c.files && |c.files[path]| == e.byteLength
    && c.hashes.sha256(c.files[path]) == e.sha256 && c.hashes.sha512(c.files[path]) == e.sha512
    && LedgersAgree(e, key, c)
  }

  predicate LedgersAgree(e: Entry, key: string, c: Context) {
    && key in c.sums256 && c.sums256[key] == e.sha256
    && key in c.sums512 && c.sums512[key] == e.sha512
  }

  predicate StorageAgrees(e: Entry, c: Context) {
    if e.storage == REPOSITORY_FROZEN then
      e.bytesPath.Some? && BytesAgree(e, Resolve(FREEZE_DIR, e.bytesPath.value), e.bytesPath.value, c)
    else
      && e.storage == INTERNAL_ONLY && e.bytesPath.None? && PatternAccepted(e.sourceId)
      && if Candidates(c.files, e.sourceId) == {} then LedgersAgree(e, InternalKey(e.sourceId), c)
         else BytesAgree(e, FirstCandidate(Candidates(c.files, e.sourceId), e.sourceId), InternalKey(e.sourceId), c)
  }

  predicate RightsAgree(e: Entry, r: RightsRecord) {
    e.disposition == r.disposition && e.targetUrl == r.targetUrl && e.targetUrl != r.provenanceUrl
  }

  /** The receipt a file holds, bound to the entry field by field. */
  predicate ReceiptAgrees(e: Entry, c: Context) {
    var path := Resolve(FREEZE_DIR, e.receiptPath);
    path in c.files
    && ReadReceipt(c.files[path]) == Some(ReceiptView(e.sha256, e.sha512, e.byteLength, e.targetUrl, e.receiptId))
  }

  predicate EntryAgrees(e: Entry, c: Context) {
    e.sourceId in c.bySource && RightsAgree(e, c.bySource[e.sourceId]) && ReceiptAgrees(e, c) && StorageAgrees(e, c)
  }

  lemma ByteFailuresExact(e: Entry, path: Path, key: string, c: Context)
    ensures ByteFailures(e, path, key, c) == [] <==> BytesAgree(e, path, key, c)
    ensures LedgerFailures(e, key, c) == [] <==> LedgersAgree(e, key, c)
  {
  }

  lemma StorageFailuresExact(e: Entry, c: Context)
    ensures StorageFailures(e, c) == Ok([]) <==> StorageAgrees(e, c)
  {
    if e.storage == REPOSITORY_FROZEN {
      if e.bytesPath.Some? {
        ByteFailuresExact(e, Resolve(FREEZE_DIR, e.bytesPath.value), e.bytesPath.value, c);
      }
    } else if e.storage == INTERNAL_ONLY {
      var names := Candidates(c.files, e.sourceId);
      if names == {} {
        ByteFailuresExact(e, INDEX, InternalKey(e.sourceId), c);
      } else {
        ByteFailuresExact(e, FirstCandidate(names, e.sourceId), InternalKey(e.sourceId), c);
      }
    }
  }

  lemma RightsAndReceiptExact(e: Entry, r: RightsRecord, v: ReceiptView)
    ensures RightsFailures(e, r) == [] <==> RightsAgree(e, r)
    ensures ReceiptFailures(e, v) == [] <==>
              v == ReceiptView(e.sha256, e.sha512, e.byteLength, e.targetUrl, e.receiptId)
  {
  }

  lemma EntryExact(e: Entry, c: Context)
    ensures EntryFailures(e, c) == Ok([]) <==> EntryAgrees(e, c)
  {
    if e.sourceId in c.bySource {
      var r := c.bySource[e.sourceId];
      var path := Resolve(FREEZE_DIR, e.receiptPath);
      if path in c.files && ReadReceipt(c.files[path]).Some? {
        var v := ReadReceipt(c.files[path]).value;
        RightsAndReceiptExact(e, r, v);
        StorageFailuresExact(e, c);
        if StorageFailures(e, c).Ok? {
          EmptyConcatenation(RightsFailures(e, r), ReceiptFailures(e, v), StorageFailures(e, c).value);
        }
      }
    }
  }

  lemma EmptyConcatenation<A>(a: seq<A>, b: seq<A>, c: seq<A>)
    ensures a + b + c == [] <==> a == [] && b == [] && c == []
  {
    assert |a + b + c| == |a| + |b| + |c|;
  }

  // ---------------------------------------------------------------- the loops

  /** The body of the entry loop; each early return is a `continue`. */
  method CheckEntry(e: Entry, c: Context) returns (failures: Result<seq<Failure>, VerifyError>)
    ensures failures == EntryFailures(e, c)
    ensures failures == Ok([]) <==> EntryAgrees(e, c)
  {
    EntryExact(e, c);
    if e.sourceId !in c.bySource {
      return Ok([NoRightsRecord(e.sourceId)]);
    }
    var record := c.bySource[e.sourceId];
    var found := RightsFailures(e, record);
    var receiptPath := Resolve(FREEZE_DIR, e.receiptPath);
    if receiptPath !in c.files {
      return Ok(found + [MissingReceipt(e.sourceId)]);
    }
    var receipt := ReadReceipt(c.files[receiptPath]);
    if receipt.None? {
      return Err(Unreadable);
    }
    found := found + ReceiptFailures(e, receipt.value);
    var storage := StorageFailures(e, c);
    if storage.Err? {
      return Err(Unreadable);
    }
    return Ok(found + storage.value);
  }

  /** The first loop: rights records against entries. */
  method CheckCoverage(ids: seq<string>, bySource: map<string, RightsRecord>, entryIds: set<string>)
    returns (failures: seq<Failure>)
    requires forall id | id in ids :: id in bySource
    ensures failures == Coverage(ids, bySource, entryIds)
  {
    failures := [];
    for k := 0 to |ids|
      invariant failures == Coverage(ids[..k], bySource, entryIds)
    {
      assert ids[..k + 1][..k] == ids[..k] && ids[k] in ids;
      var disposition := bySource[ids[k]].disposition;
      if disposition == BLOCKED && ids[k] in entryIds {
        failures := failures + [BlockedHasEntry(ids[k])];
      }
      if disposition != BLOCKED && ids[k] !in entryIds {
        failures := failures + [ClearedHasNoEntry(ids[k])];
      }
    }
    assert ids[..|ids|] == ids;
  }

  lemma EntriesStep(entries: seq<Entry>, k: nat, c: Context)
    requires k < |entries| && AllEntryFailures(entries[..k], c).Ok?
    ensures var one, next := EntryFailures(entries[k], c), AllEntryFailures(entries[..k + 1], c);
            if one.Err? then next == Err(one.error) else next == Ok(AllEntryFailures(entries[..k], c).value + one.value)
  {
    var upTo := entries[..k + 1];
    assert upTo[..k] == entries[..k] && upTo[k] == entries[k];
  }

  lemma Appended<A>(before: seq<A>, found: seq<A>, more: seq<A>)
    ensures before + found + more == before + (found + more)
  {
  }

  /** The last loop: one entry after another, added to what was found before. */
  method CheckEntries(entries: seq<Entry>, c: Context, before: seq<Failure>)
    returns (r: Result<seq<Failure>, VerifyError>)
    ensures AllEntryFailures(entries, c).Err? ==> r == Err(Unreadable)
    ensures AllEntryFailures(entries, c).Ok? ==> r == Ok(before + AllEntryFailures(entries, c).value)
  {
    var failures := before;
    for k := 0 to |entries|
      invariant AllEntryFailures(entries[..k], c).Ok?
      invariant failures == before + AllEntryFailures(entries[..k], c).value
    {
      EntriesStep(entries, k, c);
      var found := CheckEntry(entries[k], c);
      if found.Err? {
        EntryErrorPersists(entries, k + 1, c);
        return Err(Unreadable);
      }
      Appended(before, AllEntryFailures(entries[..k], c).value, found.value);
      failures := failures + found.value;
    }
    assert entries[..|entries|] == entries;
    return Ok(failures);
  }

  /** `verify` */
  method Verify(disk: FileSystem, rights: seq<RightsRecord>, hashes: Hashes)
    returns (r: Result<seq<Failure>, VerifyError>)
    ensures r == Verification(disk.files, rights, hashes)
  {
    var index, text256, text512 := ReadIndex(disk.files), ReadText(disk.files, SUMS256), ReadText(disk.files, SUMS512);
    if index.None? || text256.None? || text512.None? {
      return Err(Unreadable);
    }
    var sums256 := ReadSums(text256.value);
    var sums512 := ReadSums(text512.value);
    if sums256.Err? || sums512.Err? {
      return Err(Unreadable);
    }
    var entries := index.value;
    var c := Context(disk.files, BySource(rights), sums256.value, sums512.value, hashes);
    r := Reporting(entries, c);
  }

  method Reporting(entries: seq<Entry>, c: Context) returns (r: Result<seq<Failure>, VerifyError>)
    ensures r == Report(entries, c)
  {
    var coverage := CheckCoverage(Sorted(c.bySource.Keys), c.bySource, EntryIds(entries));
    var extras := Extras(Sorted(ReceiptFiles(c.files) - ExpectedReceipts(entries)));
    r := CheckEntries(entries, c, coverage + extras);
    assert AllEntryFailures(entries, c).Err? ==> AllEntryFailures(entries, c).error.Unreadable?;
  }

  lemma {:induction false} EntryErrorPersists(entries: seq<Entry>, k: nat, c: Context)
    requires k <= |entries| && AllEntryFailures(entries[..k], c).Err?
    ensures AllEntryFailures(entries, c) == Err(Unreadable)
    decreases |entries|
  {
    assert AllEntryFailures(entries[..k], c).error.Unreadable?;
    if k == |entries| {
      assert entries[..k] == entries;
    } else {
      assert entries[..|entries| - 1][..k] == entries[..k];
      EntryErrorPersists(entries[..|entries| - 1], k, c);
    }
  }
}
