/** What an empty failure list proves, and that no frozen file can change unnoticed. */
module FreezeSoundness {
  import opened Outcomes
  import opened Text
  import opened Utf8
  import opened Digests
  import opened Disk
  import opened FreezePackage
  import opened FreezeVerifier

  lemma {:induction false} EntriesExact(entries: seq<Entry>, c: Context)
    ensures AllEntryFailures(entries, c) == Ok([]) <==> forall e | e in entries :: EntryAgrees(e, c)
    decreases |entries|
  {
    if entries != [] {
      var front, last := entries[..|entries| - 1], entries[|entries| - 1];
      EntriesExact(front, c);
      EntryExact(last, c);
      assert forall e :: e in entries <==> e in front || e == last by { assert entries == front + [last]; }
      if AllEntryFailures(front, c).Ok? && EntryFailures(last, c).Ok? {
        EmptyConcatenation(AllEntryFailures(front, c).value, EntryFailures(last, c).value, []);
        assert AllEntryFailures(front, c).value + EntryFailures(last, c).value + []
            == AllEntryFailures(front, c).value + EntryFailures(last, c).value;
      }
    }
  }

  predicate Covered(id: string, disposition: string, entryIds: set<string>) {
    disposition == BLOCKED <==> id !in entryIds
  }

  lemma {:induction false} CoverageExact(ids: seq<string>, bySource: map<string, RightsRecord>, entryIds: set<string>)
    requires forall id | id in ids :: id in bySource
    ensures Coverage(ids, bySource, entryIds) == [] <==>
              forall id | id in ids :: Covered(id, bySource[id].disposition, entryIds)
    decreases |ids|
  {
    if ids != [] {
      var front, last := ids[..|ids| - 1], ids[|ids| - 1];
      CoverageExact(front, bySource, entryIds);
      assert forall id :: id in ids <==> id in front || id == last by { assert ids == front + [last]; }
    }
  }

  predicate AllCovered(bySource: map<string, RightsRecord>, entryIds: set<string>) {
    forall id | id in bySource :: Covered(id, bySource[id].disposition, entryIds)
  }

  predicate Agreement(entries: seq<Entry>, c: Context) {
    && AllCovered(c.bySource, EntryIds(entries))
    && ReceiptFiles(c.files) <= ExpectedReceipts(entries)
    && forall e | e in entries :: EntryAgrees(e, c)
  }

  lemma ExtrasExact(found: set<string>, expected: set<string>)
    ensures Extras(Sorted(found - expected)) == [] <==> found <= expected
  {
    var extra := found - expected;
    if found <= expected {
      assert Sorted(extra) == [];
    } else {
      var name :| name in found && name !in expected;
      assert name in Sorted(extra);
      assert |Extras(Sorted(extra))| == |Sorted(extra)| > 0;
    }
  }

  lemma CoverageOfMap(bySource: map<string, RightsRecord>, entryIds: set<string>)
    ensures Coverage(Sorted(bySource.Keys), bySource, entryIds) == [] <==> AllCovered(bySource, entryIds)
  {
    var ids := Sorted(bySource.Keys);
    CoverageExact(ids, bySource, entryIds);
    assert forall id :: id in ids <==> id in bySource;
  }

  /** The report is empty exactly when everything agrees. */
  lemma ReportExact(entries: seq<Entry>, c: Context)
    ensures Report(entries, c) == Ok([]) <==> Agreement(entries, c)
  {
    var coverage := Coverage(Sorted(c.bySource.Keys), c.bySource, EntryIds(entries));
    var extra := ReceiptFiles(c.files) - ExpectedReceipts(entries);
    CoverageOfMap(c.bySource, EntryIds(entries));
    EntriesExact(entries, c);
    ExtrasExact(ReceiptFiles(c.files), ExpectedReceipts(entries));
    if AllEntryFailures(entries, c).Ok? {
      EmptyConcatenation(coverage, Extras(Sorted(extra)), AllEntryFailures(entries, c).value);
    }
  }

  /** What `verify` read, when it passes. */
  lemma PassedContext(files: Files, rights: seq<RightsRecord>, hashes: Hashes) returns (entries: seq<Entry>, c: Context)
    requires Verification(files, rights, hashes) == Ok([])
    ensures ReadIndex(files) == Some(entries) && c.files == files && c.hashes == hashes
            && c.bySource == BySource(rights)
    ensures ReadLedger(files, SUMS256) == Some(c.sums256) && ReadLedger(files, SUMS512) == Some(c.sums512)
    ensures Agreement(entries, c)
  {
    entries := ReadIndex(files).value;
    c := Context(files, BySource(rights), ReadLedger(files, SUMS256).value, ReadLedger(files, SUMS512).value, hashes);
    ReportExact(entries, c);
  }

  /**
   Soundness: when verification passes, the entries are exactly the records that are not blocked, and
   every repository-frozen file agrees in length and both digests with its entry, receipt and ledgers.
   */
  lemma PassedMeans(files: Files, rights: seq<RightsRecord>, hashes: Hashes)
    requires Verification(files, rights, hashes) == Ok([])
    ensures ReadIndex(files).Some? && ReadLedger(files, SUMS256).Some? && ReadLedger(files, SUMS512).Some?
    ensures var entries, bySource := ReadIndex(files).value, BySource(rights);
            && EntryIds(entries) == (set id | id in bySource && bySource[id].disposition != BLOCKED)
            && forall e | e in entries && e.storage == REPOSITORY_FROZEN :: FrozenFileAgrees(files, e, hashes)
  {
    var entries, c := PassedContext(files, rights, hashes);
    forall id ensures id in EntryIds(entries) <==> id in c.bySource && c.bySource[id].disposition != BLOCKED {
      if id in EntryIds(entries) {
        var e :| e in entries && e.sourceId == id;
        assert EntryAgrees(e, c);
      }
      assert id in c.bySource ==> Covered(id, c.bySource[id].disposition, EntryIds(entries));
    }
    forall e | e in entries && e.storage == REPOSITORY_FROZEN ensures FrozenFileAgrees(files, e, hashes) {
      assert EntryAgrees(e, c);
    }
  }

  /** One repository-frozen file against its index entry, its receipt and both ledgers. */
  ghost predicate FrozenFileAgrees(files: Files, e: Entry, hashes: Hashes) {
    e.bytesPath.Some?
    && var path, key := Resolve(FREEZE_DIR, e.bytesPath.value), e.bytesPath.value;
       var receipt := Resolve(FREEZE_DIR, e.receiptPath);
    && path in files && |files[path]| == e.byteLength
    && hashes.sha256(files[path]) == e.sha256 && hashes.sha512(files[path]) == e.sha512
    && receipt in files
    && ReadReceipt(files[receipt]) == Some(ReceiptView(e.sha256, e.sha512, e.byteLength, e.targetUrl, e.receiptId))
    && ReadLedger(files, SUMS256).Some? && key in ReadLedger(files, SUMS256).value
    && ReadLedger(files, SUMS256).value[key] == e.sha256
    && ReadLedger(files, SUMS512).Some? && key in ReadLedger(files, SUMS512).value
    && ReadLedger(files, SUMS512).value[key] == e.sha512
  }

  lemma AgreementFixesBytes(files: Files, after: Files, e: Entry, hashes: Hashes)
    requires Injective(hashes.sha256) && FrozenFileAgrees(files, e, hashes) && FrozenFileAgrees(after, e, hashes)
    ensures var path := Resolve(FREEZE_DIR, e.bytesPath.value);
            path in files && path in after && files[path] == after[path]
  {
  }

  /**
   Tamper evidence: with a collision-free SHA-256, changing the bytes of any repository-frozen file of a
   passing tree, and nothing else, makes verification fail.
   */
  lemma TamperingIsFound(files: Files, rights: seq<RightsRecord>, hashes: Hashes, e: Entry, path: Path, other: Bytes)
    requires Injective(hashes.sha256) && Verification(files, rights, hashes) == Ok([])
    requires ReadIndex(files).Some? && e in ReadIndex(files).value
    requires e.storage == REPOSITORY_FROZEN && e.bytesPath.Some? && path == Resolve(FREEZE_DIR, e.bytesPath.value)
    requires path in files && path != INDEX && other != files[path]
    ensures Verification(files[path := other], rights, hashes) != Ok([])
  {
    var after := files[path := other];
    PassedMeans(files, rights, hashes);
    assert ReadIndex(after) == ReadIndex(files);
    if Verification(after, rights, hashes) == Ok([]) {
      PassedMeans(after, rights, hashes);
      AgreementFixesBytes(files, after, e, hashes);
    }
  }
}
