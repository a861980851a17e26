/** The round trip's condition read off the records alone, and the inputs on which it fails. */
module FreezeConditions {
  import opened Outcomes
  import opened Text
  import opened TextSort
  import opened Utf8
  import opened Digests
  import opened Json
  import opened Disk
  import opened Ledger
  import opened FreezePackage
  import opened FreezeVerifier
  import opened FreezeProducer
  import opened FreezeRoundTrip

  // ---------------------------------------------------------------- ids of one component

  /** Identifiers that are one path component. */
  predicate NoSlashes(items: seq<Item>) {
    forall i | i in items :: '/' !in i.record.sourceId
  }

  predicate Plain(items: seq<Item>) {
    Sourced(items) && NoSlashes(items)
  }

  /** The names of internal files that the verifier's pattern for `id` matches. */
  function InternalNames(items: seq<Item>, id: string): set<string> {
    set i | i in items && !Frozen(i) && Glob.Matches(InternalPattern(id), BytesName(i)) :: BytesName(i)
  }

  /** The first internal file the pattern for this item matches holds other bytes than its own. */
  predicate Shadowed(items: seq<Item>, i: Item) {
    var names := InternalNames(items, i.record.sourceId);
    names != {} && exists j | j in items ::
      !Frozen(j) && BytesName(j) == Least(names) && j.fetched.body != i.fetched.body
  }

  /** A committed source, or an internal one that its pattern can look for without finding another's bytes. */
  predicate Findable(items: seq<Item>, i: Item) {
    Frozen(i) || (Glob.Acceptable(InternalPattern(i.record.sourceId)) && !Shadowed(items, i))
  }

  predicate ConformingItem(items: seq<Item>, i: Item) {
    && ClosedStorage(i.record) && i.record.targetUrl != i.record.provenanceUrl
    && OneLine(i.record.sourceId) && Findable(items, i)
  }

  predicate Conforming(records: seq<RightsRecord>, items: seq<Item>) {
    && (forall r | r in records :: ClosedDisposition(r))
    && forall i | i in items :: ConformingItem(items, i)
  }

  lemma PlainPaths(i: Item)
    requires '/' !in i.record.sourceId && IsSuffix(i.suffix)
    ensures BytesPath(i) == Path(if Frozen(i) then SOURCE_DIR else INTERNAL_DIR, BytesName(i))
    ensures ReceiptPath(i) == Path(RECEIPT_DIR, ReceiptName(i.record.sourceId))
    ensures !Absolute(i.record.sourceId) && Placeable(i) && Folders(i.record.sourceId) == []
  {
    SuffixesName(i);
    NamedIsPlain(i.record.sourceId, i.suffix);
    NamedIsPlain(i.record.sourceId, ".receipt.json");
    ResolvePlain(if Frozen(i) then SOURCE_DIR else INTERNAL_DIR, BytesName(i));
    ResolvePlain(RECEIPT_DIR, ReceiptName(i.record.sourceId));
  }

  lemma PlainPattern(id: string)
    requires '/' !in id
    ensures PatternPath(id) == Path(INTERNAL_DIR, InternalPattern(id)) && !Absolute(id)
  {
    NamedIsPlain(id, ".*");
    ResolvePlain(INTERNAL_DIR, InternalPattern(id));
  }

  lemma PlainIsModelled(i: Item)
    requires '/' !in i.record.sourceId && IsSuffix(i.suffix)
    ensures Modelled(i)
  {
    PlainPaths(i);
    PlainPattern(i.record.sourceId);
    DirectoriesDiffer();
  }

  lemma PlainPathsDiffer(i: Item, j: Item)
    requires '/' !in i.record.sourceId && IsSuffix(i.suffix) && '/' !in j.record.sourceId && IsSuffix(j.suffix)
    requires i.record.sourceId != j.record.sourceId
    ensures BytesPath(i) != BytesPath(j) && ReceiptPath(i) != ReceiptPath(j)
  {
    PlainPaths(i);
    PlainPaths(j);
    NamesDiffer(i.record.sourceId, i.suffix, j.record.sourceId, j.suffix);
    DifferentHeads(i.record.sourceId, j.record.sourceId, ".receipt.json");
  }

  lemma PlainApart(items: seq<Item>, i: Item, j: Item)
    requires Plain(items) && i in items && j in items
    ensures BytesPath(i) == BytesPath(j) || ReceiptPath(i) == ReceiptPath(j) ==> i == j
  {
    if i.record.sourceId == j.record.sourceId {
      SameIdSameItem(items, i, j);
    } else {
      PlainPathsDiffer(i, j);
    }
  }

  lemma PlainLast(items: seq<Item>, i: Item)
    requires Plain(items) && i in items
    ensures LastAt(items, BytesPath(i)) == Some(i) && LastAt(items, ReceiptPath(i)) == Some(i)
  {
    SomethingLast(items, i);
    var b, r := LastAt(items, BytesPath(i)).value, LastAt(items, ReceiptPath(i)).value;
    BytesAreNoReceipt(i, b);
    BytesAreNoReceipt(r, i);
    PlainApart(items, i, b);
    PlainApart(items, i, r);
  }

  lemma PlainNames(items: seq<Item>, id: string)
    requires Plain(items) && '/' !in id
    ensures FoundNames(items, id) == InternalNames(items, id)
  {
    PlainPattern(id);
    DirectoriesDiffer();
    forall name | name in FoundNames(items, id) ensures name in InternalNames(items, id) {
      var p :| p in StoredPaths(items) && IsCandidate(p, id) && p.name == name;
      var i := StoredBy(items, p);
      PlainPaths(i);
    }
    forall name | name in InternalNames(items, id) ensures name in FoundNames(items, id) {
      var i :| i in items && !Frozen(i) && Glob.Matches(InternalPattern(id), BytesName(i)) && BytesName(i) == name;
      AllStored(items, i);
      PlainPaths(i);
      assert IsCandidate(BytesPath(i), id);
    }
  }

  /** The one item whose bytes the verifier's pattern for `i` finds first. */
  lemma FirstMatch(items: seq<Item>, i: Item) returns (j: Item)
    requires Plain(items) && i in items && InternalNames(items, i.record.sourceId) != {}
    ensures j in items && !Frozen(j) && BytesName(j) == Least(InternalNames(items, i.record.sourceId))
    ensures Shadowed(items, i) <==> j.fetched.body != i.fetched.body
  {
    var first := Least(InternalNames(items, i.record.sourceId));
    j :| j in items && !Frozen(j) && BytesName(j) == first;
    forall m | m in items && BytesName(m) == first ensures m == j {
      SameNameSameItem(items, m, j);
    }
  }

  lemma SameNameSameItem(items: seq<Item>, i: Item, j: Item)
    requires Plain(items) && i in items && j in items && BytesName(i) == BytesName(j)
    ensures i == j
  {
    NamesDiffer(i.record.sourceId, i.suffix, j.record.sourceId, j.suffix);
    SameIdSameItem(items, i, j);
  }

  lemma OwnUnlessShadowed(items: seq<Item>, i: Item, h: Hashes)
    requires Plain(items) && i in items
    ensures FindsItsOwn(items, i, h) <==> !Shadowed(items, i)
  {
    var id := i.record.sourceId;
    PlainNames(items, id);
    PlainPattern(id);
    if InternalNames(items, id) != {} {
      var j := FirstMatch(items, i);
      PlainPaths(j);
      PlainLast(items, j);
      BytesAreNoReceipt(j, j);
      assert FirstCandidate(FoundNames(items, id), id) == BytesPath(j);
    }
  }

  lemma PlainItem(items: seq<Item>, i: Item, h: Hashes)
    requires Plain(items) && i in items
    ensures VerifiableItem(items, i, h) <==> ConformingItem(items, i)
  {
    PlainLast(items, i);
    BytesAreNoReceipt(i, i);
    PlainPattern(i.record.sourceId);
    OwnUnlessShadowed(items, i, h);
  }

  /** For ids of one component the condition comes to four on each record, and one on the internal files' names. */
  lemma OneComponentIds(records: seq<RightsRecord>, items: seq<Item>, h: Hashes)
    requires Plain(items)
    ensures AllModelled(items) && (Verifiable(records, items, h) <==> Conforming(records, items))
  {
    forall i | i in items
      ensures Modelled(i) && (VerifiableItem(items, i, h) <==> ConformingItem(items, i))
      ensures ReceiptPath(i).name == ReceiptName(i.record.sourceId)
    {
      PlainIsModelled(i);
      PlainItem(items, i, h);
      PlainPaths(i);
    }
  }

  /** The tree before the run holds no receipt and no internal bytes. */
  predicate EmptyTree(files: Files) {
    forall p | p in files :: p.dir != RECEIPT_DIR && p.dir != INTERNAL_DIR
  }

  lemma EmptyIsClean(files: Files, items: seq<Item>)
    requires EmptyTree(files) && Plain(items)
    ensures CleanTree(files, items)
  {
    forall i | i in items ensures PatternPath(i.record.sourceId).dir == INTERNAL_DIR {
      PlainPattern(i.record.sourceId);
    }
  }

  /** The round trip for ids of one component. */
  lemma OneComponentRoundTrip(files: Files, records: seq<RightsRecord>, responses: seq<Option<Fetched>>,
                              items: seq<Item>, h: Hashes, narrative: Json)
    requires UniqueIds(records) && EmptyTree(files) && Injective(h.sha256) && HexHashes(h)
    requires Acquired(Queue(records), responses) == Ok(items) && NoSlashes(items)
    ensures Verification(RunTree(files, records, items, h, narrative), records, h) == Ok([]) <==>
              Conforming(records, items)
  {
    AcquiredExactly(records, responses, items);
    OneComponentIds(records, items, h);
    EmptyIsClean(files, items);
    FreezeThenVerify(files, records, responses, items, h, narrative);
  }

  // ---------------------------------------------------------------- inputs that freeze and do not verify

  function Internal(id: string): RightsRecord {
    RightsRecord(id, INTERNAL_FREEZE, INTERNAL_ONLY, "https://target", "https://provenance", true, true, true)
  }

  function Xml(body: Bytes): Fetched {
    Fetched(body, "application/xml", map[])
  }

  function XmlItem(id: string, body: Bytes): Item {
    Item(Internal(id), Xml(body), ".xml")
  }

  lemma AcquireInternal(id: string, body: Bytes)
    requires |body| <= MAX_BYTES
    ensures Acquire(Internal(id), Some(Xml(body))) == Ok(XmlItem(id, body)) && !Frozen(XmlItem(id, body))
  {
    assert INTERNAL_FREEZE[0] != BLOCKED[0];
    assert "https://target"[8] != "https://provenance"[8];
    assert "application/xml"[12] != "application/pdf"[12];
    assert INTERNAL_ONLY[0] != REPOSITORY_FROZEN[0];
  }

  lemma QueueOfOne(r: RightsRecord)
    requires Eligible(r)
    ensures Queue([r]) == [r]
  {
    assert [r][..0] == [];
    assert EligibleOf([]) == [] && SortBy([], IdOf) == [];
  }

  lemma QueueOfTwo(r: RightsRecord, s: RightsRecord)
    requires Eligible(r) && Eligible(s) && Less(r.sourceId, s.sourceId)
    ensures Queue([r, s]) == [r, s]
  {
    assert [r, s][..1] == [r] && [r][..0] == [];
    assert EligibleOf([]) == [] && EligibleOf([r]) == [r] && EligibleOf([r, s]) == [r] + [s];
    LessAsymmetric(r.sourceId, s.sourceId);
    assert SortBy([r], IdOf) == [r];
    assert InsertBy(s, [r], IdOf) == [r] + InsertBy(s, [r][1..], IdOf);
  }

  /** Requests one after another, given what each yields. */
  lemma AcquiredOne(queue: seq<RightsRecord>, responses: seq<Option<Fetched>>, item: Item)
    requires |queue| == 1 && Acquire(queue[0], ResponseAt(responses, 0)) == Ok(item)
    ensures Acquired(queue, responses) == Ok([item])
  {
    var none: seq<Item> := [];
    assert queue[..0] == [] && Acquired(queue[..0], responses) == Ok(none);
    AcquiredStep(queue, responses, 0);
    assert queue[..1] == queue && none + [item] == [item];
  }

  lemma AcquiredTwo(queue: seq<RightsRecord>, responses: seq<Option<Fetched>>, item: Item, next: Item)
    requires |queue| == 2 && Acquire(queue[0], ResponseAt(responses, 0)) == Ok(item)
    requires Acquire(queue[1], ResponseAt(responses, 1)) == Ok(next)
    ensures Acquired(queue, responses) == Ok([item, next])
  {
    AcquiredOne(queue[..1], responses, item);
    AcquiredStep(queue, responses, 1);
    assert queue[..2] == queue && [item] + [next] == [item, next];
  }

  lemma OneInternal(id: string, body: Bytes)
    requires |body| <= MAX_BYTES
    ensures Acquired(Queue([Internal(id)]), [Some(Xml(body))]) == Ok([XmlItem(id, body)])
  {
    QueueOfOne(Internal(id));
    AcquireInternal(id, body);
    AcquiredOne([Internal(id)], [Some(Xml(body))], XmlItem(id, body));
  }

  lemma TwoInternals(id: string, body: Bytes, other: string, its: Bytes)
    requires Less(id, other) && |body| <= MAX_BYTES && |its| <= MAX_BYTES
    ensures Acquired(Queue([Internal(id), Internal(other)]), [Some(Xml(body)), Some(Xml(its))])
            == Ok([XmlItem(id, body), XmlItem(other, its)])
  {
    var queue, responses := [Internal(id), Internal(other)], [Some(Xml(body)), Some(Xml(its))];
    QueueOfTwo(Internal(id), Internal(other));
    AcquireInternal(id, body);
    AcquireInternal(other, its);
    assert ResponseAt(responses, 0) == Some(Xml(body)) && ResponseAt(responses, 1) == Some(Xml(its));
    AcquiredTwo(queue, responses, XmlItem(id, body), XmlItem(other, its));
  }

  /** The run over these records succeeds, and its tree does not verify. */
  ghost predicate FreezesAndFails(records: seq<RightsRecord>, responses: seq<Option<Fetched>>) {
    Acquired(Queue(records), responses).Ok? && AllPlaceable(Acquired(Queue(records), responses).value)
    && forall files: Files, h: Hashes, narrative: Json |
         CleanTree(files, Acquired(Queue(records), responses).value) && Injective(h.sha256) && HexHashes(h) ::
         var items := Acquired(Queue(records), responses).value;
         Verification(RunTree(files, records, items, h, narrative), records, h) != Ok([])
  }

  lemma RunFails(records: seq<RightsRecord>, responses: seq<Option<Fetched>>, items: seq<Item>)
    requires UniqueIds(records) && Acquired(Queue(records), responses) == Ok(items) && AllModelled(items)
    requires forall h: Hashes :: !Verifiable(records, items, h)
    ensures FreezesAndFails(records, responses)
  {
    forall files: Files, h: Hashes, narrative: Json | CleanTree(files, items) && Injective(h.sha256) && HexHashes(h)
      ensures Verification(RunTree(files, records, items, h, narrative), records, h) != Ok([])
    {
      FreezeThenVerify(files, records, responses, items, h, narrative);
    }
  }

  lemma NeverVerifiable(records: seq<RightsRecord>, items: seq<Item>, i: Item)
    requires Plain(items) && i in items && !ConformingItem(items, i)
    ensures AllModelled(items) && forall h: Hashes :: !Verifiable(records, items, h)
  {
    forall j | j in items ensures Modelled(j) {
      PlainIsModelled(j);
    }
    forall h: Hashes ensures !VerifiableItem(items, i, h) {
      PlainItem(items, i, h);
    }
  }

  lemma PlainRunFails(records: seq<RightsRecord>, responses: seq<Option<Fetched>>, items: seq<Item>, i: Item)
    requires UniqueIds(records) && Acquired(Queue(records), responses) == Ok(items) && NoSlashes(items)
    requires i in items && !ConformingItem(items, i)
    ensures FreezesAndFails(records, responses)
  {
    AcquiredExactly(records, responses, items);
    NeverVerifiable(records, items, i);
    RunFails(records, responses, items);
  }

  lemma OneFails(id: string, body: Bytes)
    requires |body| <= MAX_BYTES && '/' !in id
    requires !ConformingItem([XmlItem(id, body)], XmlItem(id, body))
    ensures FreezesAndFails([Internal(id)], [Some(Xml(body))])
  {
    OneInternal(id, body);
    PlainRunFails([Internal(id)], [Some(Xml(body))], [XmlItem(id, body)], XmlItem(id, body));
  }

  lemma TwoFail(id: string, body: Bytes, other: string, its: Bytes, i: Item)
    requires Less(id, other) && |body| <= MAX_BYTES && |its| <= MAX_BYTES && '/' !in id && '/' !in other
    requires i in [XmlItem(id, body), XmlItem(other, its)]
    requires !ConformingItem([XmlItem(id, body), XmlItem(other, its)], i)
    ensures FreezesAndFails([Internal(id), Internal(other)], [Some(Xml(body)), Some(Xml(its))])
  {
    TwoInternals(id, body, other, its);
    LessAsymmetric(id, other);
    PlainRunFails([Internal(id), Internal(other)], [Some(Xml(body)), Some(Xml(its))],
                  [XmlItem(id, body), XmlItem(other, its)], i);
  }

  /** Any identifier that spans lines. */
  lemma BrokenIdFails(id: string, body: Bytes)
    requires |body| <= MAX_BYTES && '/' !in id && !OneLine(id)
    ensures FreezesAndFails([Internal(id)], [Some(Xml(body))])
  {
    OneFails(id, body);
  }

  /** Any identifier whose pattern is refused: it has two stars in a row. */
  lemma RefusedPatternFails(id: string, body: Bytes)
    requires |body| <= MAX_BYTES && '/' !in id && !Glob.Acceptable(InternalPattern(id))
    ensures FreezesAndFails([Internal(id)], [Some(Xml(body))])
  {
    AcquireInternal(id, body);
    OneFails(id, body);
  }

  /** The pattern for `i` finds the file of `j` before its own. */
  lemma ShadowedBy(items: seq<Item>, i: Item, j: Item)
    requires items == [i, j] || items == [j, i]
    requires !Frozen(i) && !Frozen(j) && i.fetched.body != j.fetched.body
    requires Glob.Matches(InternalPattern(i.record.sourceId), BytesName(j)) && Less(BytesName(j), BytesName(i))
    ensures Shadowed(items, i) && !ConformingItem(items, i)
  {
    var names := InternalNames(items, i.record.sourceId);
    assert i in items && j in items && BytesName(j) in names;
    assert forall n | n in names :: n == BytesName(i) || n == BytesName(j);
    assert IsLeast(BytesName(j), names);
    LeastUnique(BytesName(j), Least(names), names);
  }

  lemma NestedNames()
    ensures Less("A", "A.B") && Less("A.B.xml", "A.xml") && Glob.Matches("A.*", "A.B.xml")
  {
    assert "A.B"[1..] == ".B" && "A"[1..] == "";
    assert "A.B.xml"[1..] == ".B.xml" && "A.xml"[1..] == ".xml";
    assert ".B.xml"[1..] == "B.xml" && ".xml"[1..] == "xml";
    assert "A." + "*" == "A.*" && "A." <= "A.B.xml";
    Glob.OrdinaryPrefix("A.", "A.B.xml");
  }

  /** `A` beside `A.B`: the pattern `A.*` finds `A.B.xml` before `A.xml`. */
  lemma NestedIdFails(a: Bytes, b: Bytes)
    requires a != b && |a| <= MAX_BYTES && |b| <= MAX_BYTES
    ensures FreezesAndFails([Internal("A"), Internal("A.B")], [Some(Xml(a)), Some(Xml(b))])
  {
    var i, j := XmlItem("A", a), XmlItem("A.B", b);
    NestedNames();
    AcquireInternal("A", a);
    AcquireInternal("A.B", b);
    assert '/' !in "A" && '/' !in "A.B";
    assert BytesName(i) == "A.xml" && BytesName(j) == "A.B.xml" && InternalPattern("A") == "A.*";
    ShadowedBy([i, j], i, j);
    TwoFail("A", a, "A.B", b, i);
  }

  lemma QuestionMarkNames()
    ensures Less("A!", "A?") && Less("A!.xml", "A?.xml") && Glob.Matches("A?.*", "A!.xml")
  {
    assert "A!"[1..] == "!" && "A?"[1..] == "?";
    assert "A!.xml"[1..] == "!.xml" && "A?.xml"[1..] == "?.xml" && "!.xml"[1..] == ".xml";
    Glob.OrdinaryPrefix(".", ".xml");
    assert "." + "*" == ".*" && "." <= ".xml";
    Glob.QuestionStep(".*", "!.xml");
    assert "?" + ".*" == "?.*";
    Glob.OrdinaryStep('A', "?.*", "A!.xml");
    assert ['A'] + "?.*" == "A?.*";
  }

  /** `A?` beside `A!`: the question mark in the pattern `A?.*` also matches the exclamation mark. */
  lemma QuestionMarkIdFails(a: Bytes, b: Bytes)
    requires a != b && |a| <= MAX_BYTES && |b| <= MAX_BYTES
    ensures FreezesAndFails([Internal("A!"), Internal("A?")], [Some(Xml(a)), Some(Xml(b))])
  {
    var j, i := XmlItem("A!", a), XmlItem("A?", b);
    QuestionMarkNames();
    AcquireInternal("A!", a);
    AcquireInternal("A?", b);
    assert '/' !in "A!" && '/' !in "A?";
    assert BytesName(i) == "A?.xml" && BytesName(j) == "A!.xml" && InternalPattern("A?") == "A?.*";
    ShadowedBy([j, i], i, j);
    TwoFail("A!", a, "A?", b, i);
  }

  /** An identifier such as `./x`, for any name: path resolution drops the dot, and the receipt goes astray. */
  lemma DotIdFails(name: string, body: Bytes)
    requires '/' !in name && |body| <= MAX_BYTES
    ensures FreezesAndFails([Internal("./" + name)], [Some(Xml(body))])
  {
    var id := "./" + name;
    var item := XmlItem(id, body);
    OneInternal(id, body);
    AcquireInternal(id, body);
    DotPaths(name, item);
    StrayFails(Internal(id), Some(Xml(body)), item);
  }

  /** A single source whose receipt lands in the receipt directory under another name than its own. */
  lemma StrayFails(r: RightsRecord, response: Option<Fetched>, item: Item)
    requires Acquired(Queue([r]), [response]) == Ok([item]) && Modelled(item)
    requires ReceiptPath(item).dir == RECEIPT_DIR && ReceiptPath(item).name != ReceiptName(item.record.sourceId)
    ensures FreezesAndFails([r], [response])
  {
    assert item in [item] && !NoStray([item]);
    RunFails([r], [response], [item]);
  }

  lemma DotPaths(name: string, i: Item)
    requires '/' !in name && i.record.sourceId == "./" + name && !Frozen(i)
    ensures ReceiptPath(i) == Path(RECEIPT_DIR, ReceiptName(name))
            && ReceiptName(i.record.sourceId) != ReceiptName(name)
    ensures Modelled(i)
  {
    var id := i.record.sourceId;
    assert id == "." + "/" + name && !Absolute(ReceiptName(id)) && !Absolute(InternalPattern(id));
    BelowFolder(".", name);
    assert Folders(name) == [] && Base(name) == name;
    ComponentsOf(id, ".receipt.json");
    ComponentsOf(id, ".*");
    assert |ReceiptName(id)| == |ReceiptName(name)| + 2;
    DirectoriesDiffer();
  }

  // ---------------------------------------------------------------- an identifier with a folder

  function Committed(id: string): RightsRecord {
    RightsRecord(id, REPOSITORY_FREEZE, REPOSITORY_FROZEN, "https://target", "https://provenance", true, true, true)
  }

  lemma CommittedRun(id: string, body: Bytes)
    requires |body| <= MAX_BYTES
    ensures Acquired(Queue([Committed(id)]), [Some(Xml(body))]) == Ok([Item(Committed(id), Xml(body), ".xml")])
  {
    QueueOfOne(Committed(id));
    AcquireCommitted(id, body);
    AcquiredOne([Committed(id)], [Some(Xml(body))], Item(Committed(id), Xml(body), ".xml"));
  }

  function FolderItemOf(folder: string, name: string, body: Bytes): Item {
    Item(Committed(folder + "/" + name), Xml(body), ".xml")
  }

  /** A committed source in a folder of its own verifies: its receipt is in that folder, too. */
  lemma FolderIdPasses(folder: string, name: string, body: Bytes, files: Files, h: Hashes, narrative: Json)
    requires PlainName(folder) && '/' !in name && OneLine(folder) && OneLine(name) && |body| <= MAX_BYTES
    requires Injective(h.sha256) && HexHashes(h) && forall p | p in files :: p.dir != RECEIPT_DIR
    ensures var item := FolderItemOf(folder, name, body);
            && Acquired(Queue([item.record]), [Some(Xml(body))]) == Ok([item])
            && Verification(RunTree(files, [item.record], [item], h, narrative), [item.record], h) == Ok([])
  {
    CommittedRun(folder + "/" + name, body);
    FolderItem(folder, name, FolderItemOf(folder, name, body));
    OneVerifies(files, FolderItemOf(folder, name, body), h, narrative);
  }

  lemma OneVerifies(files: Files, item: Item, h: Hashes, narrative: Json)
    requires Acquired(Queue([item.record]), [Some(item.fetched)]) == Ok([item])
    requires Injective(h.sha256) && HexHashes(h) && forall p | p in files :: p.dir != RECEIPT_DIR
    requires IsSuffix(item.suffix) && item.record == Committed(item.record.sourceId) && OneLine(item.record.sourceId)
    requires Placeable(item) && ReceiptPath(item).dir != RECEIPT_DIR
    ensures Verification(RunTree(files, [item.record], [item], h, narrative), [item.record], h) == Ok([])
  {
    OneIsVerifiable(item, h);
    FreezeThenVerify(files, [item.record], [Some(item.fetched)], [item], h, narrative);
  }

  lemma AcquireCommitted(id: string, body: Bytes)
    requires |body| <= MAX_BYTES
    ensures Acquire(Committed(id), Some(Xml(body))) == Ok(Item(Committed(id), Xml(body), ".xml"))
  {
    assert REPOSITORY_FREEZE[0] != BLOCKED[0];
    assert "https://target"[8] != "https://provenance"[8];
    assert "application/xml"[12] != "application/pdf"[12];
  }

  lemma BelowIsRelative(folder: string, rest: string)
    requires PlainName(folder)
    ensures !Absolute(folder + "/" + rest)
  {
    assert (folder + "/" + rest)[0] == folder[0] && folder[0] in folder;
  }

  lemma FolderReceipt(folder: string, name: string)
    requires PlainName(folder) && '/' !in name
    ensures Resolve(RECEIPT_DIR, ReceiptName(folder + "/" + name)).dir == RECEIPT_DIR + "/" + folder
  {
    Regroup(folder + "/", name, ".receipt.json");
    NamedIsPlain(name, ".receipt.json");
    ResolveUnder(RECEIPT_DIR, folder, ReceiptName(name));
  }

  lemma FolderItem(folder: string, name: string, i: Item)
    requires PlainName(folder) && '/' !in name && OneLine(folder) && OneLine(name) && IsSuffix(i.suffix)
    requires i.record.sourceId == folder + "/" + name
    ensures ReceiptPath(i).dir == RECEIPT_DIR + "/" + folder && Placeable(i) && OneLine(i.record.sourceId)
  {
    Regroup(folder + "/", name, i.suffix);
    BelowIsRelative(folder, name + i.suffix);
    FolderReceipt(folder, name);
    OneLineConcat(folder, "/");
    OneLineConcat(folder + "/", name);
  }

  lemma OneLast(i: Item)
    requires IsSuffix(i.suffix)
    ensures LastAt([i], BytesPath(i)) == Some(i) && LastAt([i], ReceiptPath(i)) == Some(i)
  {
    SomethingLast([i], i);
  }

  lemma CommittedConforms(r: RightsRecord)
    requires r == Committed(r.sourceId)
    ensures ClosedStorage(r) && ClosedDisposition(r) && r.targetUrl != r.provenanceUrl
  {
    assert "https://target"[8] != "https://provenance"[8];
  }

  lemma OneIsVerifiable(i: Item, h: Hashes)
    requires IsSuffix(i.suffix) && i.record == Committed(i.record.sourceId) && OneLine(i.record.sourceId)
    requires Placeable(i) && ReceiptPath(i).dir != RECEIPT_DIR
    ensures Verifiable([i.record], [i], h) && AllModelled([i])
  {
    CommittedConforms(i.record);
    OneLast(i);
    BytesAreNoReceipt(i, i);
    assert VerifiableItem([i], i, h);
  }
}
