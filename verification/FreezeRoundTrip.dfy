/** Freeze, then verify: exactly when the verifier finds nothing wrong with what the producer wrote. */
module FreezeRoundTrip {
  import opened Outcomes
  import opened Text
  import opened TextSort
  import opened Utf8
  import opened Digests
  import opened Json
  import opened JsonAccess
  import opened Disk
  import opened Ledger
  import opened FreezePackage
  import opened FreezeVerifier
  import opened FreezeSoundness
  import opened FreezeProducer

  predicate UniqueIds(records: seq<RightsRecord>) {
    forall j, k | 0 <= j < k < |records| :: records[j].sourceId != records[k].sourceId
  }

  predicate DistinctItems(items: seq<Item>) {
    forall j, k | 0 <= j < k < |items| :: items[j].record.sourceId != items[k].record.sourceId
  }

  /** What a successful freeze over distinct records acquired. */
  predicate Sourced(items: seq<Item>) {
    DistinctItems(items) && forall i | i in items :: IsSuffix(i.suffix)
  }

  /**
   A committed copy has a relative name, and the pattern of an internal one looks in one directory outside the
   package.
   */
  predicate Modelled(i: Item) {
    if Frozen(i) then Placeable(i)
    else
      && (forall f | f in Folders(i.record.sourceId) :: Glob.Ordinary(f))
      && PatternPath(i.record.sourceId).dir != FREEZE_DIR
  }

  predicate AllModelled(items: seq<Item>) {
    forall i | i in items :: Modelled(i)
  }

  /** The tree before the run holds no receipt and no file that the pattern of an internal item finds. */
  predicate CleanTree(files: Files, items: seq<Item>) {
    && (forall p | p in files :: p.dir != RECEIPT_DIR)
    && forall i, p | i in items && !Frozen(i) && p in files :: !IsCandidate(p, i.record.sourceId)
  }

  // ---------------------------------------------------------------- the queue

  /** The producer's queue: the eligible records, each as often as it was listed, ascending by id. */
  lemma QueueSorts(records: seq<RightsRecord>)
    ensures AscendingBy(Queue(records), IdOf) && multiset(Queue(records)) == multiset(EligibleOf(records))
    ensures forall r :: r in Queue(records) <==> r in records && Eligible(r)
  {
    SortSorts(EligibleOf(records), IdOf);
  }

  lemma SortKeepsDistinct(records: seq<RightsRecord>)
    requires UniqueIds(records)
    ensures UniqueIds(SortBy(records, IdOf))
  {
    SortSorts(records, IdOf);
    assert DistinctBy(records, IdOf);
    DistinctIsOrderFree(records, SortBy(records, IdOf), IdOf);
    forall j, k | 0 <= j < k < |records|
      ensures SortBy(records, IdOf)[j].sourceId != SortBy(records, IdOf)[k].sourceId
    {
      assert IdOf(SortBy(records, IdOf)[j]) != IdOf(SortBy(records, IdOf)[k]);
    }
  }

  lemma {:induction false} EligibleKeepsDistinct(records: seq<RightsRecord>)
    requires UniqueIds(records)
    ensures UniqueIds(EligibleOf(records))
    decreases |records|
  {
    if records != [] {
      var n := |records| - 1;
      EligibleKeepsDistinct(records[..n]);
      forall x | x in EligibleOf(records[..n]) ensures x.sourceId != records[n].sourceId {
        var m :| 0 <= m < n && records[..n][m] == x;
        assert records[m] == x;
      }
    }
  }

  /** What was acquired: exactly the eligible records, each once. */
  lemma AcquiredExactly(records: seq<RightsRecord>, responses: seq<Option<Fetched>>, items: seq<Item>)
    requires UniqueIds(records) && Acquired(Queue(records), responses) == Ok(items)
    ensures Sourced(items)
    ensures forall r | r in records && Eligible(r) :: exists k :: 0 <= k < |items| && items[k].record == r
    ensures forall i | i in items :: i.record in records && Eligible(i.record)
  {
    var queue := Queue(records);
    EligibleKeepsDistinct(records);
    SortKeepsDistinct(EligibleOf(records));
    forall i | i in items ensures IsSuffix(i.suffix) && i.record in records && Eligible(i.record) {
      var k :| 0 <= k < |items| && items[k] == i;
      assert queue[k] in queue;
    }
    forall r | r in records && Eligible(r) ensures exists k :: 0 <= k < |items| && items[k].record == r {
      assert r in queue;
      var k :| 0 <= k < |queue| && queue[k] == r;
      assert items[k].record == r;
    }
  }

  lemma {:induction false} NoBlockedRequest(queue: seq<RightsRecord>, responses: seq<Option<Fetched>>)
    requires forall r | r in queue :: r.disposition != BLOCKED
    ensures Acquired(queue, responses) != Err(BlockedRequested)
    decreases |queue|
  {
    if queue != [] {
      assert queue[|queue| - 1] in queue;
      assert forall r | r in queue[..|queue| - 1] :: r in queue;
      NoBlockedRequest(queue[..|queue| - 1], responses);
    }
  }

  /** A blocked source is never requested: whatever the records and responses, that gate never fires. */
  lemma BlockedNeverRequested(records: seq<RightsRecord>, responses: seq<Option<Fetched>>)
    ensures forall r | r in Queue(records) :: r in records && r.disposition != BLOCKED
    ensures Acquired(Queue(records), responses) != Err(BlockedRequested)
  {
    assert BLOCKED[0] != REPOSITORY_FREEZE[0] && BLOCKED[0] != INTERNAL_FREEZE[0];
    NoBlockedRequest(Queue(records), responses);
  }

  /** The disposition the index carries: complete without blocked records, else partial or blocked. */
  lemma FreezeDispositionExact(items: seq<Item>, records: seq<RightsRecord>, h: Hashes)
    ensures var disposition := FreezeDisposition(IndexOf(items, records, h));
            && (disposition == "COMPLETE" <==> forall r | r in records :: r.disposition != BLOCKED)
            && (disposition == "BLOCKED" <==> items == [] && exists r :: r in records && r.disposition == BLOCKED)
  {
    var held := SortBy(BlockedOf(records), IdOf);
    assert "COMPLETE"[0] != "PARTIAL"[0] && "COMPLETE"[0] != "BLOCKED"[0] && "BLOCKED"[0] != "PARTIAL"[0];
    if held != [] {
      assert held[0] in held;
    }
    assert |RowsOf(items, h)| == |items|;
  }

  lemma {:induction false} BySourceExact(records: seq<RightsRecord>)
    requires UniqueIds(records)
    ensures forall r | r in records :: r.sourceId in BySource(records) && BySource(records)[r.sourceId] == r
    ensures forall id | id in BySource(records) ::
              BySource(records)[id] in records && BySource(records)[id].sourceId == id
    decreases |records|
  {
    if records != [] {
      var n := |records| - 1;
      BySourceExact(records[..n]);
      assert records == records[..n] + [records[n]];
      forall r | r in records ensures r.sourceId in BySource(records) && BySource(records)[r.sourceId] == r {
        if r != records[n] {
          var m :| 0 <= m < n && records[..n][m] == r;
          assert records[m] == r;
        }
      }
    }
  }

  // ---------------------------------------------------------------- the files

  lemma SuffixesName(i: Item)
    requires IsSuffix(i.suffix)
    ensures Naming(i.suffix) && Naming(".receipt.json") && Naming(".*")
  {
  }

  /** The relative name of a committed copy leads the verifier to it. */
  lemma RelativeNameResolves(i: Item)
    requires IsSuffix(i.suffix) && Frozen(i) && Placeable(i)
    ensures Resolve(FREEZE_DIR, RelativeName(i)) == BytesPath(i)
  {
    var parts := Components(BytesName(i));
    SuffixesName(i);
    ComponentsOf(i.record.sourceId, i.suffix);
    ComponentsAreComponents(BytesName(i));
    Rejoined(parts);
    DirectoriesDiffer();
    ResolveUnder(FREEZE_DIR, "sources", Joined(parts));
    assert "sources" + "/" + Joined(parts) == RelativeName(i);
  }

  lemma ReceiptPathIs(i: Item, h: Hashes)
    requires !Absolute(i.record.sourceId)
    ensures Resolve(FREEZE_DIR, EntryOf(i, h).receiptPath) == ReceiptPath(i)
  {
    var name := ReceiptName(i.record.sourceId);
    ComponentsOf(i.record.sourceId, ".receipt.json");
    DirectoriesDiffer();
    RelativeReceipt(i.record.sourceId);
    ResolveUnder(FREEZE_DIR, "receipts", name);
    assert "receipts" + "/" + name == EntryOf(i, h).receiptPath;
  }

  lemma NamesDiffer(a: string, s: string, b: string, t: string)
    requires IsSuffix(s) && IsSuffix(t)
    ensures a + s == b + t ==> a == b && s == t
  {
    if a + s == b + t {
      var n := |a + s|;
      assert (a + s)[n - 4] == s[|s| - 4] && (b + t)[n - 4] == t[|t| - 4];
      assert |s| == |t|;
      assert a == (a + s)[..|a|] && b == (b + t)[..|b|];
      assert s == (a + s)[|a|..] && t == (b + t)[|b|..];
    }
  }

  /** No copy of a source is ever stored where a receipt is. */
  lemma BytesAreNoReceipt(i: Item, j: Item)
    requires IsSuffix(i.suffix)
    ensures BytesPath(i) != ReceiptPath(j)
  {
    SuffixesName(i);
    ResolvedName(if Frozen(i) then SOURCE_DIR else INTERNAL_DIR, i.record.sourceId, i.suffix);
    ResolvedName(RECEIPT_DIR, j.record.sourceId, ".receipt.json");
    LastCharacter(Base(i.record.sourceId), i.suffix);
    LastCharacter(Base(j.record.sourceId), ".receipt.json");
  }

  lemma LastCharacter(a: string, suffix: string)
    requires suffix != ""
    ensures (a + suffix)[|a + suffix| - 1] == suffix[|suffix| - 1]
  {
  }

  ghost predicate Holds(tree: Files, i: Item, h: Hashes) {
    && BytesPath(i) in tree && tree[BytesPath(i)] == i.fetched.body
    && ReceiptPath(i) in tree && tree[ReceiptPath(i)] == ReceiptBytes(i, h)
  }

  /** The last item that stored something at this path. */
  function LastAt(items: seq<Item>, p: Path): (last: Option<Item>)
    ensures last.Some? ==> last.value in items && (p == BytesPath(last.value) || p == ReceiptPath(last.value))
  {
    if items == [] then None else
    var i := items[|items| - 1];
    if p == BytesPath(i) || p == ReceiptPath(i) then Some(i) else LastAt(items[..|items| - 1], p)
  }

  lemma StoredAt(tree: Files, i: Item, h: Hashes, p: Path)
    ensures p == ReceiptPath(i) ==> p in Stored(tree, i, h) && Stored(tree, i, h)[p] == ReceiptBytes(i, h)
    ensures p == BytesPath(i) && p != ReceiptPath(i) ==>
              p in Stored(tree, i, h) && Stored(tree, i, h)[p] == i.fetched.body
    ensures p != BytesPath(i) && p != ReceiptPath(i) ==>
              (p in Stored(tree, i, h) <==> p in tree) && (p in tree ==> Stored(tree, i, h)[p] == tree[p])
  {
  }

  /** What the tree holds at any path, whatever the identifiers are: what was stored there last, or what it held. */
  lemma {:induction false} TreeIs(files: Files, items: seq<Item>, h: Hashes, p: Path)
    ensures var tree := FrozenTree(files, items, h);
            match LastAt(items, p)
            case None => (p in tree <==> p in files) && (p in tree ==> tree[p] == files[p])
            case Some(i) => p in tree && tree[p] == if p == ReceiptPath(i) then ReceiptBytes(i, h) else i.fetched.body
    decreases |items|
  {
    if items != [] {
      var n := |items| - 1;
      TreeIs(files, items[..n], h, p);
      StoredAt(FrozenTree(files, items[..n], h), items[n], h, p);
    }
  }

  lemma {:induction false} SomethingLast(items: seq<Item>, i: Item)
    requires i in items
    ensures LastAt(items, BytesPath(i)).Some? && LastAt(items, ReceiptPath(i)).Some?
    decreases |items|
  {
    if i != items[|items| - 1] {
      SomethingLast(items[..|items| - 1], i);
    }
  }

  lemma ReceiptIdNamesItem(i: Item, j: Item, h: Hashes)
    requires EntryOf(i, h).receiptId == EntryOf(j, h).receiptId
    ensures i.record.sourceId == j.record.sourceId
  {
    var a, b := i.record.sourceId, j.record.sourceId;
    assert "OIC-CA-FREEZE-" + a + "-v0.1" == "OIC-CA-FREEZE-" + b + "-v0.1";
    assert ("OIC-CA-FREEZE-" + a + "-v0.1")[14..14 + |a|] == a && ("OIC-CA-FREEZE-" + b + "-v0.1")[14..14 + |b|] == b;
  }

  /**
   Whatever the identifiers are, the tree holds what an item stored exactly when the last copy stored at its
   path has the same bytes and no later item stored a receipt at its receipt's path.
   */
  lemma TreeHolds(files: Files, items: seq<Item>, h: Hashes, i: Item)
    requires DistinctItems(items) && (forall j | j in items :: IsSuffix(j.suffix)) && i in items
    ensures LastAt(items, BytesPath(i)).Some?
    ensures Holds(FrozenTree(files, items, h), i, h) <==>
              && LastAt(items, BytesPath(i)).value.fetched.body == i.fetched.body
              && LastAt(items, ReceiptPath(i)) == Some(i)
  {
    SomethingLast(items, i);
    TreeIs(files, items, h, BytesPath(i));
    TreeIs(files, items, h, ReceiptPath(i));
    var b, r := LastAt(items, BytesPath(i)).value, LastAt(items, ReceiptPath(i)).value;
    BytesAreNoReceipt(i, b);
    BytesAreNoReceipt(r, i);
    if ReceiptBytes(r, h) == ReceiptBytes(i, h) {
      ReceiptBytesRead(r, h);
      ReceiptBytesRead(i, h);
      ReceiptIdNamesItem(r, i, h);
      SameIdSameItem(items, r, i);
    }
  }

  lemma SameIdSameItem(items: seq<Item>, i: Item, j: Item)
    requires DistinctItems(items) && i in items && j in items && i.record.sourceId == j.record.sourceId
    ensures i == j
  {
  }

  function StoredPaths(items: seq<Item>): set<Path> {
    if items == [] then {}
    else StoredPaths(items[..|items| - 1]) + {BytesPath(items[|items| - 1]), ReceiptPath(items[|items| - 1])}
  }

  lemma StoredKeys(tree: Files, i: Item, h: Hashes)
    ensures Stored(tree, i, h).Keys == tree.Keys + {BytesPath(i), ReceiptPath(i)}
  {
  }

  /** The tree holds what it held and what the items stored, and nothing else. */
  lemma {:induction false} TreeAdds(files: Files, items: seq<Item>, h: Hashes)
    ensures FrozenTree(files, items, h).Keys == files.Keys + StoredPaths(items)
    decreases |items|
  {
    if items != [] {
      var n := |items| - 1;
      TreeAdds(files, items[..n], h);
      StoredKeys(FrozenTree(files, items[..n], h), items[n], h);
    }
  }

  lemma {:induction false} StoredBy(items: seq<Item>, p: Path) returns (i: Item)
    requires p in StoredPaths(items)
    ensures i in items && (p == BytesPath(i) || p == ReceiptPath(i))
    decreases |items|
  {
    i := items[|items| - 1];
    if p != BytesPath(i) && p != ReceiptPath(i) {
      i := StoredBy(items[..|items| - 1], p);
    }
  }

  lemma {:induction false} AllStored(items: seq<Item>, i: Item)
    requires i in items
    ensures BytesPath(i) in StoredPaths(items) && ReceiptPath(i) in StoredPaths(items)
    decreases |items|
  {
    if i != items[|items| - 1] {
      AllStored(items[..|items| - 1], i);
    }
  }

  lemma StoredPathsExact(items: seq<Item>, p: Path)
    ensures p in StoredPaths(items) <==> LastAt(items, p).Some?
  {
    if p in StoredPaths(items) {
      var i := StoredBy(items, p);
      SomethingLast(items, i);
    }
    if LastAt(items, p).Some? {
      AllStored(items, LastAt(items, p).value);
    }
  }

  // ---------------------------------------------------------------- the index and the ledgers

  lemma IndexReadsBack(index: Index)
    ensures DecodeIndex(IndexBytes(index)) == Some(EntriesOf(index.rows))
  {
    var rows := index.rows;
    forall k | 0 <= k < |rows| ensures DecodeEntry(RowsJson(rows)[k]) == Some(rows[k].entry) {
      EntryReadsBack(rows[k].entry, rows[k].details);
    }
    ReadAllOf(RowsJson(rows), DecodeEntry, EntriesOf(rows));
    ReadJsonLine(IndexDocument(index));
  }

  lemma {:induction false} JoinedEnds(parts: seq<string>)
    requires parts != []
    ensures EndsWith(Joined(parts), parts[|parts| - 1])
    decreases |parts|
  {
    if |parts| > 1 {
      JoinedEnds(parts[1..]);
      var tail, last := Joined(parts[1..]), parts[|parts| - 1];
      assert Joined(parts) == (parts[0] + "/") + tail;
      assert Joined(parts)[|Joined(parts)| - |last|..] == tail[|tail| - |last|..];
    }
  }

  /** A committed copy's ledger name ends like its suffix. */
  lemma RelativeNameEnds(i: Item)
    requires IsSuffix(i.suffix)
    ensures RelativeName(i) != "" && RelativeName(i)[|RelativeName(i)| - 1] == i.suffix[|i.suffix| - 1]
  {
    var parts := Components(BytesName(i));
    SuffixesName(i);
    ComponentsOf(i.record.sourceId, i.suffix);
    JoinedEnds(parts);
    var last := Base(i.record.sourceId) + i.suffix;
    LastCharacter(Base(i.record.sourceId), i.suffix);
    assert Joined(parts)[|Joined(parts)| - |last|..] == last;
    assert Joined(parts)[|Joined(parts)| - 1] == last[|last| - 1];
  }

  /** Two committed copies under one relative name have their receipts at one path, too. */
  lemma OneNameOneReceipt(i: Item, j: Item)
    requires IsSuffix(i.suffix) && IsSuffix(j.suffix) && Frozen(i) && Frozen(j) && Placeable(i) && Placeable(j)
    requires RelativeName(i) == RelativeName(j)
    ensures ReceiptPath(i) == ReceiptPath(j)
  {
    var a, b := i.record.sourceId, j.record.sourceId;
    SuffixesName(i);
    SuffixesName(j);
    ComponentsOf(a, i.suffix);
    ComponentsOf(b, j.suffix);
    ComponentsAreComponents(BytesName(i));
    ComponentsAreComponents(BytesName(j));
    SameTail("sources/", Joined(Components(BytesName(i))), Joined(Components(BytesName(j))));
    Rejoined(Components(BytesName(i)));
    Rejoined(Components(BytesName(j)));
    LastsEqual(Folders(a), Base(a) + i.suffix, Folders(b), Base(b) + j.suffix);
    NamesDiffer(Base(a), i.suffix, Base(b), j.suffix);
    ComponentsOf(a, ".receipt.json");
    ComponentsOf(b, ".receipt.json");
    RelativeReceipt(a);
    RelativeReceipt(b);
    PlaceableIsRelative(i);
    PlaceableIsRelative(j);
  }

  lemma PlaceableIsRelative(i: Item)
    requires IsSuffix(i.suffix) && Frozen(i) && Placeable(i)
    ensures !Absolute(i.record.sourceId)
  {
    if i.record.sourceId != "" {
      assert BytesName(i)[0] == i.record.sourceId[0];
    }
  }

  lemma RelativeReceipt(id: string)
    ensures Absolute(ReceiptName(id)) <==> Absolute(id)
  {
    if id != "" {
      assert ReceiptName(id)[0] == id[0];
    }
  }

  lemma LastsEqual<T>(a: seq<T>, x: T, b: seq<T>, y: T)
    requires a + [x] == b + [y]
    ensures a == b && x == y
  {
    assert (a + [x])[|a|] == x && (b + [y])[|b|] == y && |a| == |b|;
    assert (a + [x])[..|a|] == a && (b + [y])[..|b|] == b;
  }

  lemma MixedKeysDiffer(i: Item, id: string)
    requires IsSuffix(i.suffix)
    ensures RelativeName(i) != InternalKey(id)
  {
    RelativeNameEnds(i);
    LastCharacter(id, " (INTERNAL_ONLY)");
  }

  lemma LedgerKeyIs(i: Item, h: Hashes)
    ensures LedgerKey(EntryOf(i, h)) == if Frozen(i) then RelativeName(i) else InternalKey(i.record.sourceId)
  {
  }

  lemma KeysDiffer(i: Item, j: Item, h: Hashes)
    requires i.record.sourceId != j.record.sourceId && IsSuffix(i.suffix) && IsSuffix(j.suffix)
    requires ReceiptPath(i) != ReceiptPath(j) && (Frozen(i) ==> Placeable(i)) && (Frozen(j) ==> Placeable(j))
    ensures LedgerKey(EntryOf(i, h)) != LedgerKey(EntryOf(j, h))
  {
    LedgerKeyIs(i, h);
    LedgerKeyIs(j, h);
    MixedKeysDiffer(i, j.record.sourceId);
    MixedKeysDiffer(j, i.record.sourceId);
    DifferentHeads(i.record.sourceId, j.record.sourceId, " (INTERNAL_ONLY)");
    if Frozen(i) && Frozen(j) && RelativeName(i) == RelativeName(j) {
      OneNameOneReceipt(i, j);
    }
  }

  lemma SameTail(prefix: string, a: string, b: string)
    requires prefix + a == prefix + b
    ensures a == b
  {
    assert (prefix + a)[|prefix|..] == a && (prefix + b)[|prefix|..] == b;
  }

  lemma DifferentHeads(a: string, b: string, suffix: string)
    requires a != b
    ensures a + suffix != b + suffix
  {
    assert (a + suffix)[..|a + suffix| - |suffix|] == a && (b + suffix)[..|b + suffix| - |suffix|] == b;
  }

  lemma OneLineConcat(a: string, b: string)
    ensures OneLine(a + b) <==> OneLine(a) && OneLine(b)
  {
    assert forall c :: c in a + b <==> c in a || c in b;
  }

  lemma FixedPartsAreOneLine(suffix: string)
    requires IsSuffix(suffix)
    ensures OneLine(suffix) && OneLine("sources/") && OneLine(" (INTERNAL_ONLY)")
  {
  }

  lemma {:induction false} JoinedLine(s: string)
    ensures OneLine(Joined(Components(s))) <==> OneLine(s)
    decreases |s|
  {
    if s == [] {
    } else if '/' in s {
      var folder, name := SplitAtSlash(s);
      JoinedLine(name);
      FolderComponents(folder, name);
      OneLineConcat(folder + "/", name);
      OneLineConcat(folder, "/");
      OneLineConcat(folder + "/", Joined(Components(name)));
      assert OneLine("/") && OneLine("") && OneLine(".");
      JoinedFolder(folder, Components(name));
    } else {
      FirstSlashAt(s, "");
      assert s[..|s|] == s;
    }
  }

  lemma JoinedFolder(folder: string, rest: seq<string>)
    ensures Joined(Kept(folder) + rest) ==
              if folder == "" || folder == "." then Joined(rest)
              else if rest == [] then folder else folder + "/" + Joined(rest)
  {
    assert [] + rest == rest && ([folder] + rest)[1..] == rest;
  }

  lemma KeyIsOneLine(i: Item, h: Hashes)
    requires IsSuffix(i.suffix)
    ensures OneLine(LedgerKey(EntryOf(i, h))) <==> OneLine(i.record.sourceId)
  {
    var id := i.record.sourceId;
    FixedPartsAreOneLine(i.suffix);
    OneLineConcat("sources/", Joined(Components(BytesName(i))));
    JoinedLine(BytesName(i));
    OneLineConcat(id, i.suffix);
    OneLineConcat(id, " (INTERNAL_ONLY)");
  }

  ghost predicate HexHashes(h: Hashes) {
    forall b: Bytes :: HexDigest(h.sha256(b)) && HexDigest(h.sha512(b))
  }

  /** No two sources are filed under one name, and no name spans lines. */
  predicate LedgerNamesSafe(items: seq<Item>, h: Hashes) {
    && (forall k | 0 <= k < |items| :: OneLine(LedgerKey(EntryOf(items[k], h))))
    && forall j, k | 0 <= j < k < |items| :: LedgerKey(EntryOf(items[j], h)) != LedgerKey(EntryOf(items[k], h))
  }

  lemma SumsReadBack(sums: seq<Sum>)
    requires forall k | 0 <= k < |sums| :: HexDigest(sums[k].digest) && OneLine(sums[k].name)
    requires forall j, k | 0 <= j < k < |sums| :: sums[j].name != sums[k].name
    ensures ParseSums(LedgerText(sums)) == Ok(LedgerMap(sums))
    ensures forall k | 0 <= k < |sums| ::
              sums[k].name in LedgerMap(sums) && LedgerMap(sums)[sums[k].name] == sums[k].digest
  {
    LedgerRoundTrip(sums);
    LedgerMapExact(sums);
  }

  /** The parsed ledger has this digest under the name of every item. */
  ghost predicate FiledIn(sums: map<string, string>, items: seq<Item>, h: Hashes, digest: Entry -> string) {
    forall i | i in items :: var e := EntryOf(i, h); LedgerKey(e) in sums && sums[LedgerKey(e)] == digest(e)
  }

  lemma {:induction false} LedgerReadsBack(items: seq<Item>, h: Hashes, sums: seq<Sum>, digest: Entry -> string)
    requires LedgerNamesSafe(items, h) && |sums| == |items|
    requires forall k | 0 <= k < |items| ::
               var e := EntryOf(items[k], h); sums[k] == Sum(digest(e), LedgerKey(e)) && HexDigest(digest(e))
    ensures ParseSums(LedgerText(sums)) == Ok(LedgerMap(sums)) && FiledIn(LedgerMap(sums), items, h, digest)
  {
    SumsReadBack(sums);
    forall i | i in items
      ensures var e := EntryOf(i, h); LedgerKey(e) in LedgerMap(sums) && LedgerMap(sums)[LedgerKey(e)] == digest(e)
    {
      var k :| 0 <= k < |items| && items[k] == i;
      assert sums[k].name in LedgerMap(sums);
    }
  }

  lemma LedgersReadBack(items: seq<Item>, h: Hashes)
    requires HexHashes(h) && LedgerNamesSafe(items, h)
    ensures var a := Sums256(RowsOf(items, h));
            ParseSums(LedgerText(a)) == Ok(LedgerMap(a)) && FiledIn(LedgerMap(a), items, h, (e: Entry) => e.sha256)
    ensures var b := Sums512(RowsOf(items, h));
            ParseSums(LedgerText(b)) == Ok(LedgerMap(b)) && FiledIn(LedgerMap(b), items, h, (e: Entry) => e.sha512)
  {
    LedgerReadsBack(items, h, Sums256(RowsOf(items, h)), (e: Entry) => e.sha256);
    LedgerReadsBack(items, h, Sums512(RowsOf(items, h)), (e: Entry) => e.sha512);
  }

  lemma LedgerNamesAreSafe(items: seq<Item>, h: Hashes)
    requires Sourced(items) && AllModelled(items) && forall i | i in items :: OneLine(i.record.sourceId)
    requires forall i | i in items :: LastAt(items, ReceiptPath(i)) == Some(i)
    ensures LedgerNamesSafe(items, h)
  {
    forall k | 0 <= k < |items| ensures OneLine(LedgerKey(EntryOf(items[k], h))) {
      assert items[k] in items;
      KeyIsOneLine(items[k], h);
    }
    forall j, k | 0 <= j < k < |items| ensures LedgerKey(EntryOf(items[j], h)) != LedgerKey(EntryOf(items[k], h)) {
      assert items[j] in items && items[k] in items;
      assert Modelled(items[j]) && Modelled(items[k]);
      assert LastAt(items, ReceiptPath(items[j])) == Some(items[j])
          && LastAt(items, ReceiptPath(items[k])) == Some(items[k]);
      KeysDiffer(items[j], items[k], h);
    }
  }

  // ---------------------------------------------------------------- the round trip

  predicate ClosedDisposition(r: RightsRecord) {
    r.disposition == BLOCKED || Eligible(r)
  }

  predicate ClosedStorage(r: RightsRecord) {
    r.storage == REPOSITORY_FROZEN || r.storage == INTERNAL_ONLY
  }

  /** What is stored last at a path. */
  function ContentAt(items: seq<Item>, p: Path, h: Hashes): Option<Bytes> {
    match LastAt(items, p)
    case None => None
    case Some(i) => Some(if p == ReceiptPath(i) then ReceiptBytes(i, h) else i.fetched.body)
  }

  /** The names among the stored files that the verifier's pattern for `id` finds. */
  function FoundNames(items: seq<Item>, id: string): set<string> {
    set p | p in StoredPaths(items) && IsCandidate(p, id) :: p.name
  }

  /** The first file the pattern finds, if it finds any, holds this item's bytes. */
  predicate FindsItsOwn(items: seq<Item>, i: Item, h: Hashes) {
    var names := FoundNames(items, i.record.sourceId);
    names == {} || ContentAt(items, FirstCandidate(names, i.record.sourceId), h) == Some(i.fetched.body)
  }

  /** The verifier finds the bytes of this item, or, for an internal one, no bytes at all. */
  predicate Retrievable(items: seq<Item>, i: Item, h: Hashes) {
    if Frozen(i) then ContentAt(items, BytesPath(i), h) == Some(i.fetched.body)
    else PatternAccepted(i.record.sourceId) && FindsItsOwn(items, i, h)
  }

  predicate VerifiableItem(items: seq<Item>, i: Item, h: Hashes) {
    && ClosedStorage(i.record) && i.record.targetUrl != i.record.provenanceUrl && OneLine(i.record.sourceId)
    && LastAt(items, ReceiptPath(i)) == Some(i) && Retrievable(items, i, h)
  }

  /** Every receipt that ends up in the receipt directory has a name that some entry expects. */
  predicate NoStray(items: seq<Item>) {
    forall i | i in items && ReceiptPath(i).dir == RECEIPT_DIR ::
      exists j :: j in items && ReceiptName(j.record.sourceId) == ReceiptPath(i).name
  }

  predicate Verifiable(records: seq<RightsRecord>, items: seq<Item>, h: Hashes) {
    && (forall r | r in records :: ClosedDisposition(r)) && NoStray(items)
    && forall i | i in items :: VerifiableItem(items, i, h)
  }

  /** The final tree, where it is not the package itself. */
  ghost predicate TreeOf(tree: Files, files: Files, items: seq<Item>, h: Hashes) {
    && CleanTree(files, items)
    && forall p: Path | !InPackage(p) ::
         && (p in tree <==> p in FrozenTree(files, items, h))
         && (p in tree ==> tree[p] == FrozenTree(files, items, h)[p])
  }

  lemma StoredContent(tree: Files, files: Files, items: seq<Item>, h: Hashes, p: Path)
    requires TreeOf(tree, files, items, h) && Sourced(items) && p in StoredPaths(items)
    ensures p in tree && Some(tree[p]) == ContentAt(items, p, h) && !InPackage(p)
  {
    var i := StoredBy(items, p);
    StoredElsewhere(i);
    StoredPathsExact(items, p);
    TreeIs(files, items, h, p);
  }

  lemma ReceiptBytesRead(i: Item, h: Hashes)
    ensures ReadReceipt(ReceiptBytes(i, h)) == Some(ViewOf(EntryOf(i, h)))
  {
    var view := ViewOf(EntryOf(i, h));
    ReadJsonLine(ReceiptJson(view, i.fetched.details));
    ReceiptReadsBack(view, i.fetched.details);
  }

  /** A receipt agrees with its entry exactly when no later item stored its receipt at the same path. */
  lemma ReceiptAgreesExactly(tree: Files, files: Files, items: seq<Item>, h: Hashes, i: Item, c: Context)
    requires TreeOf(tree, files, items, h) && Sourced(items) && i in items && !Absolute(i.record.sourceId)
             && c.files == tree
    ensures ReceiptAgrees(EntryOf(i, h), c) <==> LastAt(items, ReceiptPath(i)) == Some(i)
  {
    ReceiptPathIs(i, h);
    AllStored(items, i);
    StoredContent(tree, files, items, h, ReceiptPath(i));
    var j := LastAt(items, ReceiptPath(i)).value;
    BytesAreNoReceipt(j, i);
    ReceiptBytesRead(j, h);
    if ViewOf(EntryOf(j, h)) == ViewOf(EntryOf(i, h)) {
      ReceiptIdNamesItem(j, i, h);
      SameIdSameItem(items, j, i);
    }
  }

  lemma BodiesAgree(e: Entry, body: Bytes, data: Bytes, path: Path, key: string, c: Context)
    requires Injective(c.hashes.sha256) && path in c.files && c.files[path] == data
    requires e.byteLength == |body| && e.sha256 == c.hashes.sha256(body) && e.sha512 == c.hashes.sha512(body)
    ensures BytesAgree(e, path, key, c) <==> LedgersAgree(e, key, c) && data == body
  {
  }

  lemma FrozenBytesAgree(tree: Files, files: Files, items: seq<Item>, h: Hashes, i: Item, c: Context)
    requires TreeOf(tree, files, items, h) && Sourced(items) && i in items && Frozen(i) && Placeable(i)
    requires c.files == tree && c.hashes == h && Injective(h.sha256)
    ensures StorageAgrees(EntryOf(i, h), c) <==>
              LedgersAgree(EntryOf(i, h), LedgerKey(EntryOf(i, h)), c) && Retrievable(items, i, h)
  {
    AllStored(items, i);
    StoredContent(tree, files, items, h, BytesPath(i));
    RelativeNameResolves(i);
    BodiesAgree(EntryOf(i, h), i.fetched.body, tree[BytesPath(i)], BytesPath(i), LedgerKey(EntryOf(i, h)), c);
  }

  lemma CandidateIsStored(tree: Files, files: Files, items: seq<Item>, h: Hashes, i: Item, p: Path)
    requires TreeOf(tree, files, items, h) && i in items && !Frozen(i) && Modelled(i)
             && IsCandidate(p, i.record.sourceId)
    ensures p in tree <==> p in StoredPaths(items)
  {
    TreeAdds(files, items, h);
    assert !InPackage(p) && p !in files;
  }

  lemma CandidatesAre(tree: Files, files: Files, items: seq<Item>, h: Hashes, i: Item)
    requires TreeOf(tree, files, items, h) && i in items && !Frozen(i) && Modelled(i)
    ensures Candidates(tree, i.record.sourceId) == FoundNames(items, i.record.sourceId)
  {
    var id := i.record.sourceId;
    forall p: Path | IsCandidate(p, id) ensures p in tree <==> p in StoredPaths(items) {
      CandidateIsStored(tree, files, items, h, i, p);
    }
  }

  lemma FirstIsStored(items: seq<Item>, id: string)
    requires FoundNames(items, id) != {}
    ensures FirstCandidate(FoundNames(items, id), id) in StoredPaths(items)
  {
    var names := FoundNames(items, id);
    var p :| p in StoredPaths(items) && IsCandidate(p, id) && p.name == Least(names);
    assert p == FirstCandidate(names, id);
  }

  lemma InternalBytesAgree(tree: Files, files: Files, items: seq<Item>, h: Hashes, i: Item, c: Context)
    requires TreeOf(tree, files, items, h) && Sourced(items) && i in items && Modelled(i)
    requires i.record.storage == INTERNAL_ONLY && !Frozen(i)
    requires c.files == tree && c.hashes == h && Injective(h.sha256)
    ensures StorageAgrees(EntryOf(i, h), c) <==>
              LedgersAgree(EntryOf(i, h), LedgerKey(EntryOf(i, h)), c) && Retrievable(items, i, h)
  {
    var id := i.record.sourceId;
    CandidatesAre(tree, files, items, h, i);
    var names := FoundNames(items, id);
    if names != {} {
      var path := FirstCandidate(names, id);
      FirstIsStored(items, id);
      StoredContent(tree, files, items, h, path);
      BodiesAgree(EntryOf(i, h), i.fetched.body, tree[path], path, LedgerKey(EntryOf(i, h)), c);
    }
  }

  /** What agreement with an item's entry comes to. */
  predicate SoundItem(items: seq<Item>, i: Item, h: Hashes, c: Context) {
    && ClosedStorage(i.record) && i.record.targetUrl != i.record.provenanceUrl
    && LedgersAgree(EntryOf(i, h), LedgerKey(EntryOf(i, h)), c)
    && LastAt(items, ReceiptPath(i)) == Some(i) && Retrievable(items, i, h)
  }

  lemma StorageAgreesExactly(tree: Files, files: Files, items: seq<Item>, h: Hashes, i: Item, c: Context)
    requires TreeOf(tree, files, items, h) && Sourced(items) && i in items && Modelled(i)
    requires c.files == tree && c.hashes == h && Injective(h.sha256)
    ensures StorageAgrees(EntryOf(i, h), c) <==>
              ClosedStorage(i.record) && LedgersAgree(EntryOf(i, h), LedgerKey(EntryOf(i, h)), c)
                  && Retrievable(items, i, h)
  {
    assert INTERNAL_ONLY[0] != REPOSITORY_FROZEN[0];
    if Frozen(i) {
      FrozenBytesAgree(tree, files, items, h, i, c);
    } else if i.record.storage == INTERNAL_ONLY {
      InternalBytesAgree(tree, files, items, h, i, c);
    }
  }

  lemma RetrievableIsRelative(items: seq<Item>, i: Item, h: Hashes)
    requires IsSuffix(i.suffix) && Modelled(i) && Retrievable(items, i, h)
    ensures !Absolute(i.record.sourceId)
  {
    if Frozen(i) {
      PlaceableIsRelative(i);
    }
  }

  lemma ItemAgrees(tree: Files, files: Files, items: seq<Item>, h: Hashes, i: Item, c: Context)
    requires TreeOf(tree, files, items, h) && Sourced(items) && i in items && Modelled(i)
    requires c.files == tree && c.hashes == h && Injective(h.sha256)
    requires i.record.sourceId in c.bySource && c.bySource[i.record.sourceId] == i.record
    ensures EntryAgrees(EntryOf(i, h), c) <==> SoundItem(items, i, h, c)
  {
    StorageAgreesExactly(tree, files, items, h, i, c);
    if Retrievable(items, i, h) {
      RetrievableIsRelative(items, i, h);
      ReceiptAgreesExactly(tree, files, items, h, i, c);
    }
  }

  lemma EntryIdsAre(items: seq<Item>, h: Hashes, id: string)
    ensures id in EntryIds(EntriesOf(RowsOf(items, h))) <==>
              exists k :: 0 <= k < |items| && items[k].record.sourceId == id
  {
    var entries := EntriesOf(RowsOf(items, h));
    if k :| 0 <= k < |items| && items[k].record.sourceId == id {
      assert entries[k] in entries && entries[k].sourceId == id;
    }
    if e :| e in entries && e.sourceId == id {
      var k :| 0 <= k < |entries| && entries[k] == e;
      assert items[k].record.sourceId == id;
    }
  }

  lemma CoverageIsClosure(records: seq<RightsRecord>, responses: seq<Option<Fetched>>, items: seq<Item>, h: Hashes)
    requires UniqueIds(records) && Acquired(Queue(records), responses) == Ok(items)
    ensures AllCovered(BySource(records), EntryIds(EntriesOf(RowsOf(items, h)))) <==>
              forall r | r in records :: ClosedDisposition(r)
  {
    AcquiredExactly(records, responses, items);
    BySourceExact(records);
    var ids, bySource := EntryIds(EntriesOf(RowsOf(items, h))), BySource(records);
    forall r | r in records
      ensures Covered(r.sourceId, bySource[r.sourceId].disposition, ids) <==> ClosedDisposition(r)
    {
      EntryIdsAre(items, h, r.sourceId);
      if k :| 0 <= k < |items| && items[k].record.sourceId == r.sourceId {
        assert items[k] in items;
        assert bySource[r.sourceId] == items[k].record;
      }
    }
  }

  lemma EntriesAreItems(items: seq<Item>, h: Hashes)
    ensures forall e :: e in EntriesOf(RowsOf(items, h)) <==> exists i :: i in items && e == EntryOf(i, h)
  {
    var entries := EntriesOf(RowsOf(items, h));
    assert forall k | 0 <= k < |items| :: entries[k] == EntryOf(items[k], h);
    forall e | e in entries ensures exists i :: i in items && e == EntryOf(i, h) {
      var k :| 0 <= k < |entries| && entries[k] == e;
      assert items[k] in items;
    }
    forall i | i in items ensures EntryOf(i, h) in entries {
      var k :| 0 <= k < |items| && items[k] == i;
      assert entries[k] == EntryOf(i, h);
    }
  }

  lemma AllItemsAgree(files: Files, items: seq<Item>, h: Hashes, tree: Files, c: Context)
    requires Sourced(items) && AllModelled(items) && TreeOf(tree, files, items, h) && Injective(h.sha256)
    requires c.files == tree && c.hashes == h
    requires forall i | i in items :: i.record.sourceId in c.bySource && c.bySource[i.record.sourceId] == i.record
    ensures (forall e | e in EntriesOf(RowsOf(items, h)) :: EntryAgrees(e, c)) <==>
              forall i | i in items :: SoundItem(items, i, h, c)
  {
    EntriesAreItems(items, h);
    forall i | i in items ensures EntryAgrees(EntryOf(i, h), c) <==> SoundItem(items, i, h, c) {
      ItemAgrees(tree, files, items, h, i, c);
    }
  }

  lemma ReceiptKeepsSuffix(i: Item)
    ensures EndsWith(ReceiptPath(i).name, ".receipt.json")
  {
    ResolvedSuffix(RECEIPT_DIR, i.record.sourceId, ".receipt.json");
  }

  lemma BytesAreNamedOtherwise(i: Item)
    requires IsSuffix(i.suffix)
    ensures !EndsWith(BytesPath(i).name, ".receipt.json")
  {
    SuffixesName(i);
    ResolvedName(if Frozen(i) then SOURCE_DIR else INTERNAL_DIR, i.record.sourceId, i.suffix);
    var name := BytesPath(i).name;
    LastCharacter(Base(i.record.sourceId), i.suffix);
  }

  lemma StoredReceipt(items: seq<Item>, p: Path) returns (i: Item)
    requires Sourced(items) && p in StoredPaths(items) && EndsWith(p.name, ".receipt.json")
    ensures i in items && p == ReceiptPath(i)
  {
    i := StoredBy(items, p);
    BytesAreNamedOtherwise(i);
  }

  lemma ExpectedExactly(items: seq<Item>, h: Hashes, name: string)
    ensures name in ExpectedReceipts(EntriesOf(RowsOf(items, h))) <==>
              exists j :: j in items && ReceiptName(j.record.sourceId) == name
  {
    var entries := EntriesOf(RowsOf(items, h));
    EntriesAreItems(items, h);
    if e :| e in entries && ReceiptName(e.sourceId) == name {
      var j :| j in items && e == EntryOf(j, h);
    }
    if j :| j in items && ReceiptName(j.record.sourceId) == name {
      assert EntryOf(j, h) in entries;
    }
  }

  lemma ReceiptFilesAre(files: Files, items: seq<Item>, h: Hashes, tree: Files)
    requires Sourced(items) && TreeOf(tree, files, items, h)
    ensures ReceiptFiles(tree) <= ExpectedReceipts(EntriesOf(RowsOf(items, h))) <==> NoStray(items)
  {
    var expected := ExpectedReceipts(EntriesOf(RowsOf(items, h)));
    DirectoriesDiffer();
    TreeAdds(files, items, h);
    forall i | i in items && ReceiptPath(i).dir == RECEIPT_DIR ensures ReceiptPath(i).name in ReceiptFiles(tree) {
      AllStored(items, i);
      ReceiptKeepsSuffix(i);
      assert !InPackage(ReceiptPath(i)) && ReceiptPath(i) in tree;
    }
    forall name | name in ReceiptFiles(tree)
      ensures exists i :: i in items && ReceiptPath(i) == Path(RECEIPT_DIR, name)
    {
      var p := Path(RECEIPT_DIR, name);
      assert !InPackage(p) && p in tree && p !in files;
      var i := StoredReceipt(items, p);
    }
    forall name ensures name in expected <==> exists j :: j in items && ReceiptName(j.record.sourceId) == name {
      ExpectedExactly(items, h, name);
    }
  }

  /** What both directions share: the context the verifier builds, and what agreement with it comes to. */
  lemma AgreementIs(files: Files, records: seq<RightsRecord>, responses: seq<Option<Fetched>>, items: seq<Item>,
                    h: Hashes, tree: Files, c: Context)
    requires UniqueIds(records) && Acquired(Queue(records), responses) == Ok(items) && AllModelled(items)
    requires TreeOf(tree, files, items, h) && Injective(h.sha256)
    requires c.files == tree && c.hashes == h && c.bySource == BySource(records)
    ensures Agreement(EntriesOf(RowsOf(items, h)), c) <==>
              && (forall r | r in records :: ClosedDisposition(r)) && NoStray(items)
              && forall i | i in items :: SoundItem(items, i, h, c)
  {
    AcquiredExactly(records, responses, items);
    CoverageIsClosure(records, responses, items, h);
    ReceiptFilesAre(files, items, h, tree);
    BySourceExact(records);
    AllItemsAgree(files, items, h, tree, c);
  }

  lemma PackagePathsDiffer()
    ensures INDEX != NARRATIVE && INDEX != SUMS256 && INDEX != SUMS512 && SUMS256 != NARRATIVE && SUMS256 != SUMS512
  {
    assert |NARRATIVE.name| == 28 && |INDEX.name| == 10 && |SUMS256.name| == 10;
    assert INDEX.name[0] == 'I' && SUMS256.name[0] == 'S' && SUMS512.name[0] == 'S';
    assert SUMS256.name[3] == '2' && SUMS512.name[3] == '5';
  }

  lemma PackageHolds(files: Files, a: Bytes, b: Bytes, c: Bytes, d: Bytes)
    ensures var tree := files[INDEX := a][NARRATIVE := b][SUMS256 := c][SUMS512 := d];
            && INDEX in tree && tree[INDEX] == a && SUMS256 in tree && tree[SUMS256] == c
            && SUMS512 in tree && tree[SUMS512] == d
            && forall p: Path | !InPackage(p) :: (p in tree <==> p in files) && (p in tree ==> tree[p] == files[p])
  {
    PackagePathsDiffer();
  }

  lemma FinalTree(files: Files, items: seq<Item>, index: Index, h: Hashes, narrative: Json)
    requires CleanTree(files, items)
    ensures var tree := PackageTree(FrozenTree(files, items, h), index, narrative);
            && TreeOf(tree, files, items, h) && ReadIndex(tree) == Some(EntriesOf(index.rows))
            && ReadText(tree, SUMS256) == Some(LedgerText(Sums256(index.rows)))
            && ReadText(tree, SUMS512) == Some(LedgerText(Sums512(index.rows)))
  {
    var a, b := LedgerText(Sums256(index.rows)), LedgerText(Sums512(index.rows));
    PackageHolds(FrozenTree(files, items, h), IndexBytes(index), LineBytes(narrative), Encode(a), Encode(b));
    IndexReadsBack(index);
    DecodeEncode(a);
    DecodeEncode(b);
  }

  /** A ledger read from this tree has no entry for an item whose id spans lines. */
  lemma LedgerKeysAreOneLine(items: seq<Item>, i: Item, h: Hashes, c: Context, text: string)
    requires IsSuffix(i.suffix) && ParseSums(text) == Ok(c.sums256) && SoundItem(items, i, h, c)
    ensures OneLine(i.record.sourceId)
  {
    KeyIsOneLine(i, h);
    if !OneLine(LedgerKey(EntryOf(i, h))) {
      BrokenNamesAreLost(text, LedgerKey(EntryOf(i, h)));
    }
  }

  lemma PassingIsVerifiable(files: Files, records: seq<RightsRecord>, responses: seq<Option<Fetched>>, items: seq<Item>,
                            h: Hashes, tree: Files)
    requires UniqueIds(records) && Acquired(Queue(records), responses) == Ok(items) && AllModelled(items)
    requires TreeOf(tree, files, items, h) && Injective(h.sha256)
    requires ReadIndex(tree) == Some(EntriesOf(RowsOf(items, h)))
    requires Verification(tree, records, h) == Ok([])
    ensures Verifiable(records, items, h)
  {
    var entries, c := PassedContext(tree, records, h);
    AcquiredExactly(records, responses, items);
    AgreementIs(files, records, responses, items, h, tree, c);
    forall i | i in items ensures VerifiableItem(items, i, h) {
      assert SoundItem(items, i, h, c);
      LedgerKeysAreOneLine(items, i, h, c, ReadText(tree, SUMS256).value);
    }
  }

  lemma VerifiableItemsSound(items: seq<Item>, h: Hashes, c: Context)
    requires Sourced(items) && AllModelled(items) && HexHashes(h)
    requires forall i | i in items :: VerifiableItem(items, i, h)
    requires c.sums256 == LedgerMap(Sums256(RowsOf(items, h))) && c.sums512 == LedgerMap(Sums512(RowsOf(items, h)))
    ensures forall i | i in items :: SoundItem(items, i, h, c)
  {
    LedgerNamesAreSafe(items, h);
    LedgersReadBack(items, h);
    forall i | i in items ensures SoundItem(items, i, h, c) {
      assert VerifiableItem(items, i, h);
    }
  }

  function WrittenContext(items: seq<Item>, h: Hashes, records: seq<RightsRecord>, tree: Files): Context {
    var rows := RowsOf(items, h);
    Context(tree, BySource(records), LedgerMap(Sums256(rows)), LedgerMap(Sums512(rows)), h)
  }

  lemma VerifiableReport(files: Files, records: seq<RightsRecord>, responses: seq<Option<Fetched>>, items: seq<Item>,
                         h: Hashes, tree: Files, c: Context)
    requires UniqueIds(records) && Acquired(Queue(records), responses) == Ok(items) && AllModelled(items)
    requires TreeOf(tree, files, items, h) && Injective(h.sha256) && HexHashes(h) && Verifiable(records, items, h)
    requires c.files == tree && c.hashes == h && c.bySource == BySource(records)
    requires c.sums256 == LedgerMap(Sums256(RowsOf(items, h))) && c.sums512 == LedgerMap(Sums512(RowsOf(items, h)))
    ensures Report(EntriesOf(RowsOf(items, h)), c) == Ok([])
  {
    AcquiredExactly(records, responses, items);
    VerifiableItemsSound(items, h, c);
    AgreementIs(files, records, responses, items, h, tree, c);
    ReportExact(EntriesOf(RowsOf(items, h)), c);
  }

  lemma WrittenLedgers(items: seq<Item>, h: Hashes, tree: Files)
    requires Sourced(items) && AllModelled(items) && HexHashes(h)
    requires forall i | i in items :: VerifiableItem(items, i, h)
    requires ReadText(tree, SUMS256) == Some(LedgerText(Sums256(RowsOf(items, h))))
    requires ReadText(tree, SUMS512) == Some(LedgerText(Sums512(RowsOf(items, h))))
    ensures ReadLedger(tree, SUMS256) == Some(LedgerMap(Sums256(RowsOf(items, h))))
    ensures ReadLedger(tree, SUMS512) == Some(LedgerMap(Sums512(RowsOf(items, h))))
  {
    LedgerNamesAreSafe(items, h);
    LedgersReadBack(items, h);
  }

  lemma VerifiablePasses(files: Files, records: seq<RightsRecord>, responses: seq<Option<Fetched>>, items: seq<Item>,
                         h: Hashes, tree: Files)
    requires UniqueIds(records) && Acquired(Queue(records), responses) == Ok(items) && AllModelled(items)
    requires TreeOf(tree, files, items, h) && Injective(h.sha256) && HexHashes(h)
    requires var rows := RowsOf(items, h);
             && ReadIndex(tree) == Some(EntriesOf(rows))
             && ReadText(tree, SUMS256) == Some(LedgerText(Sums256(rows)))
             && ReadText(tree, SUMS512) == Some(LedgerText(Sums512(rows)))
    requires Verifiable(records, items, h)
    ensures Verification(tree, records, h) == Ok([])
  {
    var c := WrittenContext(items, h, records, tree);
    AcquiredExactly(records, responses, items);
    VerifiableReport(files, records, responses, items, h, tree, c);
    WrittenLedgers(items, h, tree);
    VerificationIs(tree, records, h, EntriesOf(RowsOf(items, h)), c);
  }

  lemma VerificationIs(tree: Files, records: seq<RightsRecord>, h: Hashes, entries: seq<Entry>, c: Context)
    requires ReadIndex(tree) == Some(entries) && c.files == tree && c.hashes == h && c.bySource == BySource(records)
    requires ReadLedger(tree, SUMS256) == Some(c.sums256) && ReadLedger(tree, SUMS512) == Some(c.sums512)
    ensures Verification(tree, records, h) == Report(entries, c)
  {
  }

  /** The tree a successful run over these records leaves. */
  function RunTree(files: Files, records: seq<RightsRecord>, items: seq<Item>, h: Hashes, narrative: Json): Files {
    PackageTree(FrozenTree(files, items, h), IndexOf(items, records, h), narrative)
  }

  /**
   The round trip. After a successful run over distinct ids, with or without slashes, from a tree without
   receipts or internal bytes, verification finds nothing exactly when every disposition and storage class is a
   known one, no acquired target is its provenance URL, no acquired id spans lines, no two receipts end up at
   one path, none strays into the receipt directory under a name no entry expects, every committed copy is the
   last stored at its path, and the pattern of every internal id is accepted and finds no bytes but its own.
   */
  lemma FreezeThenVerify(files: Files, records: seq<RightsRecord>, responses: seq<Option<Fetched>>, items: seq<Item>,
                         h: Hashes, narrative: Json)
    requires UniqueIds(records) && Injective(h.sha256) && HexHashes(h)
    requires Acquired(Queue(records), responses) == Ok(items) && AllModelled(items) && CleanTree(files, items)
    ensures Verification(RunTree(files, records, items, h, narrative), records, h) == Ok([]) <==>
              Verifiable(records, items, h)
  {
    AcquiredExactly(records, responses, items);
    var tree := RunTree(files, records, items, h, narrative);
    FinalTree(files, items, IndexOf(items, records, h), h, narrative);
    if Verification(tree, records, h) == Ok([]) {
      PassingIsVerifiable(files, records, responses, items, h, tree);
    }
    if Verifiable(records, items, h) {
      VerifiablePasses(files, records, responses, items, h, tree);
    }
  }
}
