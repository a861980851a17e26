/**
 What the freeze verifier reports: for every failure the condition on files, entries and rights records under
 which it is listed, and the order of the list.
 */
module FreezeReport {
  import opened Outcomes
  import opened Text
  import opened Utf8
  import opened Json
  import opened JsonAccess
  import opened Disk
  import opened FreezePackage
  import opened FreezeVerifier

  // ---------------------------------------------------------------- what the verifier looks at

  ghost predicate SpellsReceipt(json: Json, v: ReceiptView) {
    && TextField(json, "sha256") == Some(v.sha256) && TextField(json, "sha512") == Some(v.sha512)
    && IntField(json, "byte_length") == Some(v.byteLength)
    && TextField(json, "acquisition_target_url") == Some(v.targetUrl)
    && TextField(json, "receipt_id") == Some(v.receiptId)
  }

  ghost predicate Known(e: Entry, c: Context) {
    e.sourceId in c.bySource
  }

  /** The file named by the entry's receipt path is a receipt that says `v`. */
  ghost predicate Receipted(e: Entry, c: Context, v: ReceiptView) {
    var path := Resolve(FREEZE_DIR, e.receiptPath);
    && Known(e, c) && path in c.files && ReadJson(c.files[path]).Some?
    && SpellsReceipt(ReadJson(c.files[path]).value, v)
  }

  /** The checks of the bytes are reached for the file `p`. */
  ghost predicate Looks(e: Entry, c: Context, p: Path) {
    && (exists v :: Receipted(e, c, v))
    && if e.storage == "REPOSITORY_FROZEN" then e.bytesPath.Some? && p == Resolve(FREEZE_DIR, e.bytesPath.value)
       else e.storage == "INTERNAL_ONLY" && FirstFound(e, c, p)
  }

  /** The first file the pattern for the source finds. */
  ghost predicate FirstFound(e: Entry, c: Context, p: Path) {
    && p in c.files && IsCandidate(p, e.sourceId)
    && forall q | q in c.files && IsCandidate(q, e.sourceId) :: AtMost(p.name, q.name)
  }

  /** The ledgers are consulted: for bytes that are there, and for an internal source without any. */
  ghost predicate Consults(e: Entry, c: Context, key: string) {
    && (exists v :: Receipted(e, c, v))
    && if e.storage == "REPOSITORY_FROZEN" then
         e.bytesPath == Some(key) && Resolve(FREEZE_DIR, key) in c.files
       else e.storage == "INTERNAL_ONLY" && key == e.sourceId + " (INTERNAL_ONLY)"
  }

  // ---------------------------------------------------------------- one entry

  /** When each failure of an entry is listed. */
  ghost predicate Shows(f: Failure, e: Entry, c: Context) {
    match f
    case NoRightsRecord(id) => id == e.sourceId && e.sourceId !in c.bySource
    case DispositionDisagrees(id) =>
      id == e.sourceId && Known(e, c) && c.bySource[e.sourceId].disposition != e.disposition
    case TargetDisagrees(id) => id == e.sourceId && Known(e, c) && c.bySource[e.sourceId].targetUrl != e.targetUrl
    case TargetIsProvenance(id) =>
      id == e.sourceId && Known(e, c) && c.bySource[e.sourceId].provenanceUrl == e.targetUrl
    case MissingReceipt(id) => id == e.sourceId && Known(e, c) && Resolve(FREEZE_DIR, e.receiptPath) !in c.files
    case ReceiptDisagrees(id, field) =>
      id == e.sourceId && exists v :: Receipted(e, c, v) && Differs(field, v, e)
    case NoBytePath(id) =>
      && id == e.sourceId && (exists v :: Receipted(e, c, v))
      && e.storage == "REPOSITORY_FROZEN" && e.bytesPath.None?
    case InternalNamesAPath(id) =>
      && id == e.sourceId && (exists v :: Receipted(e, c, v))
      && e.storage == "INTERNAL_ONLY" && e.bytesPath.Some?
    case UnexpectedStorage(id) =>
      && id == e.sourceId && (exists v :: Receipted(e, c, v))
      && e.storage != "REPOSITORY_FROZEN" && e.storage != "INTERNAL_ONLY"
    case BytesMissing(id) => id == e.sourceId && exists p :: Looks(e, c, p) && p !in c.files
    case LengthMismatch(id) =>
      id == e.sourceId && exists p :: Looks(e, c, p) && p in c.files && |c.files[p]| != e.byteLength
    case Sha256Mismatch(id) =>
      id == e.sourceId && exists p :: Looks(e, c, p) && p in c.files && c.hashes.sha256(c.files[p]) != e.sha256
    case Sha512Mismatch(id) =>
      id == e.sourceId && exists p :: Looks(e, c, p) && p in c.files && c.hashes.sha512(c.files[p]) != e.sha512
    case Sums256Disagree(id) =>
      id == e.sourceId && exists key :: Consults(e, c, key) && !(key in c.sums256 && c.sums256[key] == e.sha256)
    case Sums512Disagree(id) =>
      id == e.sourceId && exists key :: Consults(e, c, key) && !(key in c.sums512 && c.sums512[key] == e.sha512)
    case BlockedHasEntry(_) => false
    case ClearedHasNoEntry(_) => false
    case ReceiptWithoutEntry(_) => false
  }

  ghost predicate Differs(field: string, v: ReceiptView, e: Entry) {
    || (field == "sha256" && v.sha256 != e.sha256) || (field == "sha512" && v.sha512 != e.sha512)
    || (field == "byte_length" && v.byteLength != e.byteLength)
    || (field == "acquisition_target_url" && v.targetUrl != e.targetUrl)
    || (field == "receipt_id" && v.receiptId != e.receiptId)
  }

  /** The place of a failure among those of its entry. */
  function Place(f: Failure): nat {
    match f
    case NoRightsRecord(_) => 1
    case DispositionDisagrees(_) => 2
    case TargetDisagrees(_) => 3
    case TargetIsProvenance(_) => 4
    case MissingReceipt(_) => 5
    case ReceiptDisagrees(_, field) =>
      if field == "sha256" then 6 else if field == "sha512" then 7 else if field == "byte_length" then 8
      else if field == "acquisition_target_url" then 9 else 10
    case NoBytePath(_) => 11
    case InternalNamesAPath(_) => 12
    case UnexpectedStorage(_) => 13
    case BytesMissing(_) => 14
    case LengthMismatch(_) => 15
    case Sha256Mismatch(_) => 16
    case Sha512Mismatch(_) => 17
    case Sums256Disagree(_) => 18
    case Sums512Disagree(_) => 19
    case _ => 0
  }

  ghost predicate InOrder(l: seq<Failure>) {
    forall j, k | 0 <= j < k < |l| :: Place(l[j]) < Place(l[k])
  }

  /** The list of one entry: what shows, each once, in the order of the checks. */
  ghost predicate ListsEntry(l: seq<Failure>, e: Entry, c: Context) {
    (forall f :: f in l <==> Shows(f, e, c)) && InOrder(l)
  }

  /** An exception ends the verification: an unreadable receipt, or a refused pattern. */
  ghost predicate Raises(e: Entry, c: Context) {
    || (Known(e, c) && Resolve(FREEZE_DIR, e.receiptPath) in c.files && !exists v :: Receipted(e, c, v))
    || ((exists v :: Receipted(e, c, v)) && e.storage == "INTERNAL_ONLY" && !PatternAccepted(e.sourceId))
  }

  lemma {:induction false} InOrderUnique(l: seq<Failure>, m: seq<Failure>)
    requires InOrder(l) && InOrder(m) && forall f :: f in l <==> f in m
    ensures l == m
    decreases |l|
  {
    if l == [] {
      HeadIn(m);
    } else {
      assert l[0] in m;
      var i :| 0 <= i < |m| && m[i] == l[0];
      assert m[0] in l;
      var j :| 0 <= j < |l| && l[j] == m[0];
      assert l[0] == m[0];
      forall f ensures f in l[1..] <==> f in m[1..] {
        RestOf(l, f);
        RestOf(m, f);
      }
      InOrderUnique(l[1..], m[1..]);
    }
  }

  lemma HeadIn<T>(m: seq<T>)
    ensures m == [] || m[0] in m
  {
  }

  lemma RestOf(l: seq<Failure>, f: Failure)
    requires InOrder(l) && l != []
    ensures f in l[1..] <==> f in l && f != l[0]
  {
    if f in l[1..] {
      var i :| 0 <= i < |l[1..]| && l[1..][i] == f;
      assert Place(l[0]) < Place(l[i + 1]);
    }
  }

  lemma ReceiptExact(data: Bytes, v: ReceiptView)
    ensures ReadReceipt(data) == Some(v) <==> ReadJson(data).Some? && SpellsReceipt(ReadJson(data).value, v)
  {
  }

  lemma ReceiptedExact(e: Entry, c: Context, v: ReceiptView)
    ensures var path := Resolve(FREEZE_DIR, e.receiptPath);
            Receipted(e, c, v) <==> Known(e, c) && path in c.files && ReadReceipt(c.files[path]) == Some(v)
  {
    var path := Resolve(FREEZE_DIR, e.receiptPath);
    if path in c.files {
      ReceiptExact(c.files[path], v);
    }
  }

  lemma OrderedBlocks(a: seq<Failure>, b: seq<Failure>, bound: nat)
    requires InOrder(a) && InOrder(b)
    requires (forall f | f in a :: Place(f) < bound) && forall f | f in b :: Place(f) >= bound
    ensures InOrder(a + b)
  {
    forall j, k | 0 <= j < k < |a + b| ensures Place((a + b)[j]) < Place((a + b)[k]) {
      if j < |a| <= k {
        assert a[j] in a && b[k - |a|] in b;
      }
    }
  }

  // ---------------------------------------------------------------- the blocks of an entry's list

  lemma RightsList(e: Entry, c: Context, f: Failure)
    requires Known(e, c)
    ensures f in RightsFailures(e, c.bySource[e.sourceId]) <==> Shows(f, e, c) && 2 <= Place(f) <= 4
    ensures InOrder(RightsFailures(e, c.bySource[e.sourceId]))
  {
  }

  lemma OneReceipt(e: Entry, c: Context, v: ReceiptView, w: ReceiptView)
    requires Receipted(e, c, v) && Receipted(e, c, w)
    ensures v == w
  {
  }

  lemma ReceiptShows(e: Entry, c: Context, v: ReceiptView, f: Failure)
    requires Receipted(e, c, v)
    ensures Shows(f, e, c) && 6 <= Place(f) <= 10 <==>
              f.ReceiptDisagrees? && f.id == e.sourceId && Differs(f.field, v, e)
  {
    forall w | Receipted(e, c, w) ensures w == v {
      OneReceipt(e, c, v, w);
    }
    FieldPlaces(e.sourceId);
  }

  lemma ReceiptMembers(e: Entry, v: ReceiptView, f: Failure)
    ensures f in ReceiptFailures(e, v) <==> f.ReceiptDisagrees? && f.id == e.sourceId && Differs(f.field, v, e)
  {
  }

  lemma ReceiptList(e: Entry, c: Context, v: ReceiptView, f: Failure)
    requires Receipted(e, c, v)
    ensures f in ReceiptFailures(e, v) <==> Shows(f, e, c) && 6 <= Place(f) <= 10
  {
    ReceiptShows(e, c, v, f);
    ReceiptMembers(e, v, f);
  }

  lemma ReceiptOrder(e: Entry, v: ReceiptView)
    ensures InOrder(ReceiptFailures(e, v))
  {
    var a := If(v.sha256 != e.sha256, ReceiptDisagrees(e.sourceId, "sha256"));
    var b := If(v.sha512 != e.sha512, ReceiptDisagrees(e.sourceId, "sha512"));
    var c := If(v.byteLength != e.byteLength, ReceiptDisagrees(e.sourceId, "byte_length"));
    var d := If(v.targetUrl != e.targetUrl, ReceiptDisagrees(e.sourceId, "acquisition_target_url"));
    var g := If(v.receiptId != e.receiptId, ReceiptDisagrees(e.sourceId, "receipt_id"));
    FieldPlaces(e.sourceId);
    OrderedBlocks(a, b, 7);
    OrderedBlocks(a + b, c, 8);
    OrderedBlocks(a + b + c, d, 9);
    OrderedBlocks(a + b + c + d, g, 10);
  }

  lemma FieldPlaces(id: string)
    ensures Place(ReceiptDisagrees(id, "sha256")) == 6 && Place(ReceiptDisagrees(id, "sha512")) == 7
    ensures Place(ReceiptDisagrees(id, "byte_length")) == 8
    ensures Place(ReceiptDisagrees(id, "acquisition_target_url")) == 9
    ensures Place(ReceiptDisagrees(id, "receipt_id")) == 10
  {
    assert "sha256"[3] != "sha512"[3] && "byte_length"[0] == 'b' && "acquisition_target_url"[0] == 'a';
    assert "receipt_id"[0] == 'r';
  }

  lemma ConsultsOne(e: Entry, c: Context, key: string, other: string)
    requires Consults(e, c, key) && Consults(e, c, other)
    ensures key == other
  {
  }

  lemma Shows256(e: Entry, c: Context, key: string, id: string)
    requires Consults(e, c, key)
    ensures Shows(Sums256Disagree(id), e, c) <==>
              id == e.sourceId && !(key in c.sums256 && c.sums256[key] == e.sha256)
  {
    forall other | Consults(e, c, other) ensures other == key {
      ConsultsOne(e, c, key, other);
    }
  }

  lemma Shows512(e: Entry, c: Context, key: string, id: string)
    requires Consults(e, c, key)
    ensures Shows(Sums512Disagree(id), e, c) <==>
              id == e.sourceId && !(key in c.sums512 && c.sums512[key] == e.sha512)
  {
    forall other | Consults(e, c, other) ensures other == key {
      ConsultsOne(e, c, key, other);
    }
  }

  lemma LedgerPlaces(f: Failure)
    ensures 18 <= Place(f) <= 19 <==> f.Sums256Disagree? || f.Sums512Disagree?
  {
  }

  lemma LedgerShows(e: Entry, c: Context, key: string, f: Failure)
    requires Consults(e, c, key)
    ensures Shows(f, e, c) && 18 <= Place(f) <= 19 <==>
              || (f == Sums256Disagree(e.sourceId) && !(key in c.sums256 && c.sums256[key] == e.sha256))
              || (f == Sums512Disagree(e.sourceId) && !(key in c.sums512 && c.sums512[key] == e.sha512))
  {
    LedgerPlaces(f);
    if f.Sums256Disagree? {
      Shows256(e, c, key, f.id);
    } else if f.Sums512Disagree? {
      Shows512(e, c, key, f.id);
    }
  }

  lemma LedgerMembers(e: Entry, c: Context, key: string, f: Failure)
    ensures f in LedgerFailures(e, key, c) <==>
              || (f == Sums256Disagree(e.sourceId) && !(key in c.sums256 && c.sums256[key] == e.sha256))
              || (f == Sums512Disagree(e.sourceId) && !(key in c.sums512 && c.sums512[key] == e.sha512))
    ensures InOrder(LedgerFailures(e, key, c))
  {
  }

  lemma LedgerList(e: Entry, c: Context, key: string, f: Failure)
    requires Consults(e, c, key)
    ensures f in LedgerFailures(e, key, c) <==> Shows(f, e, c) && 18 <= Place(f) <= 19
  {
    LedgerShows(e, c, key, f);
    LedgerMembers(e, c, key, f);
  }

  /** The one file whose bytes are compared. */
  ghost predicate OnlyLooks(e: Entry, c: Context, p: Path) {
    Looks(e, c, p) && forall q | Looks(e, c, q) :: q == p
  }

  lemma LooksOnly(e: Entry, c: Context, p: Path)
    requires Looks(e, c, p)
    ensures OnlyLooks(e, c, p)
  {
    forall q | Looks(e, c, q) ensures q == p {
      LooksAtOne(e, c, p, q);
    }
  }

  lemma BytePlaces(f: Failure)
    ensures 14 <= Place(f) <= 17 <==> f.BytesMissing? || f.LengthMismatch? || f.Sha256Mismatch? || f.Sha512Mismatch?
  {
  }

  lemma MissingIs(e: Entry, c: Context, p: Path, id: string)
    requires OnlyLooks(e, c, p)
    ensures Shows(BytesMissing(id), e, c) <==> id == e.sourceId && p !in c.files
  {
  }

  lemma LengthIs(e: Entry, c: Context, p: Path, id: string)
    requires OnlyLooks(e, c, p)
    ensures Shows(LengthMismatch(id), e, c) <==> id == e.sourceId && p in c.files && |c.files[p]| != e.byteLength
  {
  }

  lemma Digest256Is(e: Entry, c: Context, p: Path, id: string)
    requires OnlyLooks(e, c, p)
    ensures Shows(Sha256Mismatch(id), e, c) <==>
              id == e.sourceId && p in c.files && c.hashes.sha256(c.files[p]) != e.sha256
  {
  }

  lemma Digest512Is(e: Entry, c: Context, p: Path, id: string)
    requires OnlyLooks(e, c, p)
    ensures Shows(Sha512Mismatch(id), e, c) <==>
              id == e.sourceId && p in c.files && c.hashes.sha512(c.files[p]) != e.sha512
  {
  }

  /** Which of the four byte failures hold, for the one file looked at. */
  lemma ByteShows(e: Entry, c: Context, p: Path, f: Failure)
    requires OnlyLooks(e, c, p)
    ensures Shows(f, e, c) && 14 <= Place(f) <= 17 <==>
              || (f == BytesMissing(e.sourceId) && p !in c.files)
              || (f == LengthMismatch(e.sourceId) && p in c.files && |c.files[p]| != e.byteLength)
              || (f == Sha256Mismatch(e.sourceId) && p in c.files && c.hashes.sha256(c.files[p]) != e.sha256)
              || (f == Sha512Mismatch(e.sourceId) && p in c.files && c.hashes.sha512(c.files[p]) != e.sha512)
  {
    BytePlaces(f);
    if f.BytesMissing? {
      MissingIs(e, c, p, f.id);
    } else if f.LengthMismatch? {
      LengthIs(e, c, p, f.id);
    } else if f.Sha256Mismatch? {
      Digest256Is(e, c, p, f.id);
    } else if f.Sha512Mismatch? {
      Digest512Is(e, c, p, f.id);
    }
  }

  lemma BytesShow(e: Entry, c: Context, p: Path, f: Failure)
    requires OnlyLooks(e, c, p) && p in c.files
    ensures Shows(f, e, c) && 14 <= Place(f) <= 17 <==>
              || (f == LengthMismatch(e.sourceId) && |c.files[p]| != e.byteLength)
              || (f == Sha256Mismatch(e.sourceId) && c.hashes.sha256(c.files[p]) != e.sha256)
              || (f == Sha512Mismatch(e.sourceId) && c.hashes.sha512(c.files[p]) != e.sha512)
  {
    ByteShows(e, c, p, f);
  }

  lemma LooksAtOne(e: Entry, c: Context, p: Path, q: Path)
    requires Looks(e, c, p) && Looks(e, c, q)
    ensures p == q
  {
    if e.storage != "REPOSITORY_FROZEN" {
      assert AtMost(p.name, q.name) && AtMost(q.name, p.name);
      if p.name != q.name {
        LessAsymmetric(p.name, q.name);
      }
    }
  }

  /** What is compared with the bytes themselves, before the ledgers. */
  function OwnFailures(e: Entry, data: Bytes, c: Context): seq<Failure> {
    If(|data| != e.byteLength, LengthMismatch(e.sourceId))
    + If(c.hashes.sha256(data) != e.sha256, Sha256Mismatch(e.sourceId))
    + If(c.hashes.sha512(data) != e.sha512, Sha512Mismatch(e.sourceId))
  }

  lemma OwnMembers(e: Entry, data: Bytes, c: Context, f: Failure)
    ensures f in OwnFailures(e, data, c) <==>
              || (f == LengthMismatch(e.sourceId) && |data| != e.byteLength)
              || (f == Sha256Mismatch(e.sourceId) && c.hashes.sha256(data) != e.sha256)
              || (f == Sha512Mismatch(e.sourceId) && c.hashes.sha512(data) != e.sha512)
    ensures InOrder(OwnFailures(e, data, c))
  {
  }

  lemma OwnPlaces(e: Entry, data: Bytes, c: Context, key: string)
    ensures forall f | f in OwnFailures(e, data, c) :: 15 <= Place(f) <= 17
    ensures forall f | f in LedgerFailures(e, key, c) :: 18 <= Place(f) <= 19
  {
    forall f | f in OwnFailures(e, data, c) ensures 15 <= Place(f) <= 17 {
      OwnMembers(e, data, c, f);
    }
    forall f | f in LedgerFailures(e, key, c) ensures 18 <= Place(f) <= 19 {
      LedgerMembers(e, c, key, f);
    }
  }

  lemma BytesOrder(e: Entry, c: Context, p: Path, key: string)
    requires p in c.files
    ensures InOrder(ByteFailures(e, p, key, c))
    ensures ByteFailures(e, p, key, c) == OwnFailures(e, c.files[p], c) + LedgerFailures(e, key, c)
  {
    OwnMembers(e, c.files[p], c, BytesMissing(""));
    LedgerMembers(e, c, key, BytesMissing(""));
    OwnPlaces(e, c.files[p], c, key);
    OrderedBlocks(OwnFailures(e, c.files[p], c), LedgerFailures(e, key, c), 18);
  }

  lemma BytesList(e: Entry, c: Context, p: Path, key: string, f: Failure)
    requires Looks(e, c, p) && p in c.files && Consults(e, c, key)
    ensures f in ByteFailures(e, p, key, c) <==> Shows(f, e, c) && 14 <= Place(f)
  {
    LooksOnly(e, c, p);
    BytesShow(e, c, p, f);
    OwnMembers(e, c.files[p], c, f);
    LedgerList(e, c, key, f);
    BytesOrder(e, c, p, key);
    InEither(f, OwnFailures(e, c.files[p], c), LedgerFailures(e, key, c));
    Places(f);
  }

  lemma InEither<T>(x: T, a: seq<T>, b: seq<T>)
    ensures x in a + b <==> x in a || x in b
  {
  }

  // ---------------------------------------------------------------- the storage checks

  /** The list holds what shows from the storage checks on, in order. */
  ghost predicate ListsStorage(l: seq<Failure>, e: Entry, c: Context) {
    (forall f :: f in l <==> Shows(f, e, c) && Place(f) >= 11) && InOrder(l)
  }

  /** Only the three failures of the storage class itself come before those of the bytes. */
  lemma ClassShows(e: Entry, c: Context, v: ReceiptView, f: Failure)
    requires Receipted(e, c, v)
    ensures Shows(f, e, c) && 11 <= Place(f) <= 13 <==>
              || (f == NoBytePath(e.sourceId) && e.storage == "REPOSITORY_FROZEN" && e.bytesPath.None?)
              || (f == InternalNamesAPath(e.sourceId) && e.storage == "INTERNAL_ONLY" && e.bytesPath.Some?)
              || (f == UnexpectedStorage(e.sourceId) && e.storage != "REPOSITORY_FROZEN"
                  && e.storage != "INTERNAL_ONLY")
  {
    ClassPlaces(f);
    if f.NoBytePath? {
      PathIs(e, c, v, f.id);
    } else if f.InternalNamesAPath? {
      InternalIs(e, c, v, f.id);
    } else if f.UnexpectedStorage? {
      StorageIs(e, c, v, f.id);
    }
  }

  lemma ClassPlaces(f: Failure)
    ensures 11 <= Place(f) <= 13 <==> f.NoBytePath? || f.InternalNamesAPath? || f.UnexpectedStorage?
  {
  }

  lemma PathIs(e: Entry, c: Context, v: ReceiptView, id: string)
    requires Receipted(e, c, v)
    ensures Shows(NoBytePath(id), e, c) <==>
              id == e.sourceId && e.storage == "REPOSITORY_FROZEN" && e.bytesPath.None?
  {
  }

  lemma InternalIs(e: Entry, c: Context, v: ReceiptView, id: string)
    requires Receipted(e, c, v)
    ensures Shows(InternalNamesAPath(id), e, c) <==>
              id == e.sourceId && e.storage == "INTERNAL_ONLY" && e.bytesPath.Some?
  {
  }

  lemma StorageIs(e: Entry, c: Context, v: ReceiptView, id: string)
    requires Receipted(e, c, v)
    ensures Shows(UnexpectedStorage(id), e, c) <==>
              id == e.sourceId && e.storage != "REPOSITORY_FROZEN" && e.storage != "INTERNAL_ONLY"
  {
  }

  lemma NothingLooked(e: Entry, c: Context, f: Failure)
    requires forall p :: !Looks(e, c, p)
    ensures Shows(f, e, c) ==> !(14 <= Place(f) <= 17)
  {
  }

  lemma NothingConsulted(e: Entry, c: Context, f: Failure)
    requires forall key :: !Consults(e, c, key)
    ensures Shows(f, e, c) ==> !(18 <= Place(f) <= 19)
  {
  }

  lemma Places(f: Failure)
    ensures Place(f) <= 19
  {
  }

  lemma FrozenWithoutPath(e: Entry, c: Context, v: ReceiptView)
    requires Receipted(e, c, v) && e.storage == "REPOSITORY_FROZEN" && e.bytesPath.None?
    ensures ListsStorage([NoBytePath(e.sourceId)], e, c)
  {
    forall f ensures f in [NoBytePath(e.sourceId)] <==> Shows(f, e, c) && Place(f) >= 11 {
      ClassShows(e, c, v, f);
      NothingLooked(e, c, f);
      NothingConsulted(e, c, f);
      Places(f);
    }
  }

  lemma UnknownStorage(e: Entry, c: Context, v: ReceiptView)
    requires Receipted(e, c, v) && e.storage != "REPOSITORY_FROZEN" && e.storage != "INTERNAL_ONLY"
    ensures ListsStorage([UnexpectedStorage(e.sourceId)], e, c)
  {
    forall f ensures f in [UnexpectedStorage(e.sourceId)] <==> Shows(f, e, c) && Place(f) >= 11 {
      ClassShows(e, c, v, f);
      NothingLooked(e, c, f);
      NothingConsulted(e, c, f);
      Places(f);
    }
  }

  lemma MissingShows(e: Entry, c: Context, p: Path, f: Failure)
    requires OnlyLooks(e, c, p) && p !in c.files
    ensures Shows(f, e, c) && 14 <= Place(f) <= 17 <==> f == BytesMissing(e.sourceId)
  {
    ByteShows(e, c, p, f);
  }

  lemma FrozenWithoutBytes(e: Entry, c: Context, v: ReceiptView, p: Path)
    requires Receipted(e, c, v) && e.storage == "REPOSITORY_FROZEN" && Looks(e, c, p) && p !in c.files
    ensures ListsStorage([BytesMissing(e.sourceId)], e, c)
  {
    LooksOnly(e, c, p);
    forall f ensures f in [BytesMissing(e.sourceId)] <==> Shows(f, e, c) && Place(f) >= 11 {
      ClassShows(e, c, v, f);
      MissingShows(e, c, p, f);
      NothingConsulted(e, c, f);
      Places(f);
    }
  }

  lemma FrozenWithBytes(e: Entry, c: Context, v: ReceiptView, p: Path, key: string)
    requires Receipted(e, c, v) && e.storage == "REPOSITORY_FROZEN" && Looks(e, c, p) && p in c.files
    requires Consults(e, c, key)
    ensures ListsStorage(ByteFailures(e, p, key, c), e, c)
  {
    BytesOrder(e, c, p, key);
    forall f ensures f in ByteFailures(e, p, key, c) <==> Shows(f, e, c) && Place(f) >= 11 {
      ClassShows(e, c, v, f);
      BytesList(e, c, p, key, f);
    }
  }

  lemma InternalList(e: Entry, c: Context, v: ReceiptView, rest: seq<Failure>)
    requires Receipted(e, c, v) && e.storage == "INTERNAL_ONLY" && InOrder(rest)
    requires forall f :: f in rest <==> Shows(f, e, c) && Place(f) >= 14
    ensures ListsStorage(If(e.bytesPath.Some?, InternalNamesAPath(e.sourceId)) + rest, e, c)
  {
    var first := If(e.bytesPath.Some?, InternalNamesAPath(e.sourceId));
    forall f ensures f in first + rest <==> Shows(f, e, c) && Place(f) >= 11 {
      ClassShows(e, c, v, f);
    }
    OrderedBlocks(first, rest, 14);
  }

  lemma NoCandidate(files: Files, id: string, p: Path)
    ensures p in files && IsCandidate(p, id) ==> p.name in Candidates(files, id)
  {
  }

  lemma InternalWithoutBytes(e: Entry, c: Context, v: ReceiptView, key: string)
    requires Receipted(e, c, v) && e.storage == "INTERNAL_ONLY" && Candidates(c.files, e.sourceId) == {}
    requires Consults(e, c, key)
    ensures ListsStorage(If(e.bytesPath.Some?, InternalNamesAPath(e.sourceId)) + LedgerFailures(e, key, c), e, c)
  {
    forall p ensures !Looks(e, c, p) {
      NoCandidate(c.files, e.sourceId, p);
    }
    LedgerMembers(e, c, key, BytesMissing(""));
    forall f ensures f in LedgerFailures(e, key, c) <==> Shows(f, e, c) && Place(f) >= 14 {
      LedgerList(e, c, key, f);
      NothingLooked(e, c, f);
      Places(f);
    }
    InternalList(e, c, v, LedgerFailures(e, key, c));
  }

  lemma FirstIsFound(e: Entry, c: Context)
    requires Candidates(c.files, e.sourceId) != {}
    ensures FirstFound(e, c, FirstCandidate(Candidates(c.files, e.sourceId), e.sourceId))
  {
    var names := Candidates(c.files, e.sourceId);
    var p :| p in c.files && IsCandidate(p, e.sourceId) && p.name == Least(names);
    assert p == FirstCandidate(names, e.sourceId);
    forall q | q in c.files && IsCandidate(q, e.sourceId) ensures AtMost(p.name, q.name) {
      assert q.name in names;
    }
  }

  lemma InternalWithBytes(e: Entry, c: Context, v: ReceiptView, p: Path, key: string)
    requires Receipted(e, c, v) && e.storage == "INTERNAL_ONLY" && FirstFound(e, c, p) && Consults(e, c, key)
    ensures ListsStorage(If(e.bytesPath.Some?, InternalNamesAPath(e.sourceId)) + ByteFailures(e, p, key, c), e, c)
  {
    assert Looks(e, c, p);
    BytesOrder(e, c, p, key);
    forall f ensures f in ByteFailures(e, p, key, c) <==> Shows(f, e, c) && Place(f) >= 14 {
      BytesList(e, c, p, key, f);
    }
    InternalList(e, c, v, ByteFailures(e, p, key, c));
  }

  lemma StorageList(e: Entry, c: Context, v: ReceiptView)
    requires Receipted(e, c, v)
    ensures StorageFailures(e, c).Ok? ==> ListsStorage(StorageFailures(e, c).value, e, c)
    ensures StorageFailures(e, c).Err? <==> e.storage == "INTERNAL_ONLY" && !PatternAccepted(e.sourceId)
  {
    assert "INTERNAL_ONLY"[0] != "REPOSITORY_FROZEN"[0];
    if e.storage == "REPOSITORY_FROZEN" {
      FrozenList(e, c, v);
    } else if e.storage == "INTERNAL_ONLY" && PatternAccepted(e.sourceId) {
      assert Consults(e, c, InternalKey(e.sourceId));
      if Candidates(c.files, e.sourceId) == {} {
        InternalWithoutBytes(e, c, v, InternalKey(e.sourceId));
      } else {
        FirstIsFound(e, c);
        var p := FirstCandidate(Candidates(c.files, e.sourceId), e.sourceId);
        InternalWithBytes(e, c, v, p, InternalKey(e.sourceId));
      }
    } else if e.storage != "INTERNAL_ONLY" {
      UnknownStorage(e, c, v);
    }
  }

  lemma FrozenList(e: Entry, c: Context, v: ReceiptView)
    requires Receipted(e, c, v) && e.storage == "REPOSITORY_FROZEN"
    ensures StorageFailures(e, c).Ok? && ListsStorage(StorageFailures(e, c).value, e, c)
  {
    if e.bytesPath.None? {
      FrozenWithoutPath(e, c, v);
    } else {
      var p := Resolve(FREEZE_DIR, e.bytesPath.value);
      assert Looks(e, c, p);
      if p in c.files {
        assert Consults(e, c, e.bytesPath.value);
        FrozenWithBytes(e, c, v, p, e.bytesPath.value);
      } else {
        FrozenWithoutBytes(e, c, v, p);
      }
    }
  }

  // ---------------------------------------------------------------- the whole list of an entry

  lemma UnknownList(e: Entry, c: Context)
    requires !Known(e, c)
    ensures ListsEntry([NoRightsRecord(e.sourceId)], e, c) && !Raises(e, c)
  {
    assert forall v :: !Receipted(e, c, v);
  }

  lemma UnreceiptedShows(e: Entry, c: Context, f: Failure)
    requires Known(e, c) && Resolve(FREEZE_DIR, e.receiptPath) !in c.files
    ensures Shows(f, e, c) <==> f == MissingReceipt(e.sourceId) || (Shows(f, e, c) && 2 <= Place(f) <= 4)
  {
    assert forall v :: !Receipted(e, c, v);
  }

  lemma UnreceiptedList(e: Entry, c: Context)
    requires Known(e, c) && Resolve(FREEZE_DIR, e.receiptPath) !in c.files
    ensures ListsEntry(RightsFailures(e, c.bySource[e.sourceId]) + [MissingReceipt(e.sourceId)], e, c)
    ensures !Raises(e, c)
  {
    var rights := RightsFailures(e, c.bySource[e.sourceId]);
    forall f ensures f in rights <==> Shows(f, e, c) && 2 <= Place(f) <= 4
             ensures Shows(f, e, c) <==> f == MissingReceipt(e.sourceId) || (Shows(f, e, c) && 2 <= Place(f) <= 4)
    {
      RightsList(e, c, f);
      UnreceiptedShows(e, c, f);
    }
    RightsList(e, c, BytesMissing(""));
    OrderedBlocks(rights, [MissingReceipt(e.sourceId)], 5);
    assert forall v :: !Receipted(e, c, v);
  }

  lemma ReceiptedShows(e: Entry, c: Context, v: ReceiptView, f: Failure)
    requires Receipted(e, c, v)
    ensures Shows(f, e, c) ==> 2 <= Place(f) <= 4 || 6 <= Place(f)
  {
    OtherPlaces(f);
    if Place(f) == 0 {
      NeverShows(e, c, f);
    } else if f.NoRightsRecord? {
      assert !Shows(f, e, c);
    } else if f.MissingReceipt? {
      assert !Shows(f, e, c);
    }
  }

  lemma OtherPlaces(f: Failure)
    ensures 2 <= Place(f) <= 4 || 6 <= Place(f) || Place(f) == 0 || f.NoRightsRecord? || f.MissingReceipt?
  {
  }

  lemma NeverShows(e: Entry, c: Context, f: Failure)
    requires Place(f) == 0
    ensures !Shows(f, e, c)
  {
  }

  lemma ReceiptedList(e: Entry, c: Context, v: ReceiptView, storage: seq<Failure>)
    requires Receipted(e, c, v) && ListsStorage(storage, e, c)
    ensures ListsEntry(RightsFailures(e, c.bySource[e.sourceId]) + ReceiptFailures(e, v) + storage, e, c)
  {
    var rights, receipt := RightsFailures(e, c.bySource[e.sourceId]), ReceiptFailures(e, v);
    forall f ensures f in rights <==> Shows(f, e, c) && 2 <= Place(f) <= 4
             ensures f in receipt <==> Shows(f, e, c) && 6 <= Place(f) <= 10
             ensures Shows(f, e, c) ==> 2 <= Place(f) <= 4 || 6 <= Place(f)
    {
      RightsList(e, c, f);
      ReceiptList(e, c, v, f);
      ReceiptedShows(e, c, v, f);
    }
    RightsList(e, c, BytesMissing(""));
    ReceiptOrder(e, v);
    OrderedBlocks(rights, receipt, 6);
    OrderedBlocks(rights + receipt, storage, 11);
  }

  /** The failures of an entry: what shows, each once, in order; or an exception. */
  lemma EntryList(e: Entry, c: Context)
    ensures EntryFailures(e, c).Ok? ==> ListsEntry(EntryFailures(e, c).value, e, c)
    ensures EntryFailures(e, c).Err? <==> Raises(e, c)
  {
    var path := Resolve(FREEZE_DIR, e.receiptPath);
    if !Known(e, c) {
      UnknownList(e, c);
    } else if path !in c.files {
      UnreceiptedList(e, c);
    } else if ReadReceipt(c.files[path]).None? {
      forall v ensures !Receipted(e, c, v) {
        ReceiptedExact(e, c, v);
      }
    } else {
      var v := ReadReceipt(c.files[path]).value;
      ReceiptedExact(e, c, v);
      StorageList(e, c, v);
      if StorageFailures(e, c).Ok? {
        ReceiptedList(e, c, v, StorageFailures(e, c).value);
      }
    }
  }

  // ---------------------------------------------------------------- the whole report

  /** The identifier or file name a failure outside the entries is about. */
  function Subject(f: Failure): string {
    match f
    case BlockedHasEntry(id) => id
    case ClearedHasNoEntry(id) => id
    case ReceiptWithoutEntry(name) => name
    case _ => ""
  }

  ghost predicate HasEntry(id: string, entries: seq<Entry>) {
    exists e :: e in entries && e.sourceId == id
  }

  /** A blocked record with an entry, or a cleared one without. */
  ghost predicate CoverageShows(f: Failure, entries: seq<Entry>, c: Context) {
    match f
    case BlockedHasEntry(id) =>
      id in c.bySource && c.bySource[id].disposition == "BLOCKED_PENDING_CLEARANCE" && HasEntry(id, entries)
    case ClearedHasNoEntry(id) =>
      id in c.bySource && c.bySource[id].disposition != "BLOCKED_PENDING_CLEARANCE" && !HasEntry(id, entries)
    case _ => false
  }

  /** A receipt in the receipt directory that no entry names. */
  ghost predicate ExtraShows(f: Failure, entries: seq<Entry>, c: Context) {
    && f.ReceiptWithoutEntry? && Path(RECEIPT_DIR, f.name) in c.files && EndsWith(f.name, ".receipt.json")
    && forall e | e in entries :: f.name != e.sourceId + ".receipt.json"
  }

  ghost predicate BySubject(l: seq<Failure>) {
    forall j, k | 0 <= j < k < |l| :: Less(Subject(l[j]), Subject(l[k]))
  }

  function Concat(parts: seq<seq<Failure>>): seq<Failure> {
    if parts == [] then [] else Concat(parts[..|parts| - 1]) + parts[|parts| - 1]
  }

  /** The coverage failures by identifier, then the extra receipts by name, then the entries in index order. */
  ghost predicate Composed(l: seq<Failure>, a: seq<Failure>, b: seq<Failure>, parts: seq<seq<Failure>>,
                           entries: seq<Entry>, c: Context)
  {
    && l == a + b + Concat(parts)
    && (forall f :: f in a <==> CoverageShows(f, entries, c)) && BySubject(a)
    && (forall f :: f in b <==> ExtraShows(f, entries, c)) && BySubject(b)
    && |parts| == |entries| && forall k | 0 <= k < |entries| :: ListsEntry(parts[k], entries[k], c)
  }

  ghost predicate Lists(l: seq<Failure>, entries: seq<Entry>, c: Context) {
    exists a, b, parts :: Composed(l, a, b, parts, entries, c)
  }

  lemma {:induction false} CoverageMembers(ids: seq<string>, bySource: map<string, RightsRecord>, entryIds: set<string>)
    requires StrictlyAscending(ids) && forall id | id in ids :: id in bySource
    ensures var l := Coverage(ids, bySource, entryIds);
            && (forall f :: f in l <==>
                  && (f.BlockedHasEntry? || f.ClearedHasNoEntry?) && f.id in ids
                  && (f.BlockedHasEntry? <==> bySource[f.id].disposition == BLOCKED)
                  && (f.BlockedHasEntry? <==> f.id in entryIds))
            && BySubject(l)
    decreases |ids|
  {
    if ids != [] {
      var n := |ids| - 1;
      var front, last := ids[..n], ids[n];
      assert ids == front + [last] && forall id :: id in ids <==> id in front || id == last;
      CoverageMembers(front, bySource, entryIds);
      var before, one := Coverage(front, bySource, entryIds), CoverageAt(last, bySource[last].disposition, entryIds);
      forall f | f in before ensures Less(Subject(f), last) {
        var k :| 0 <= k < |front| && front[k] == f.id;
        assert ids[k] == f.id;
      }
      SubjectBlocks(before, one, last);
    }
  }

  lemma SubjectBlocks(a: seq<Failure>, b: seq<Failure>, subject: string)
    requires BySubject(a) && |b| <= 1 && (forall f | f in a :: Less(Subject(f), subject))
    requires forall f | f in b :: Subject(f) == subject
    ensures BySubject(a + b)
  {
    forall j, k | 0 <= j < k < |a + b| ensures Less(Subject((a + b)[j]), Subject((a + b)[k])) {
      if k >= |a| {
        assert a[j] in a && b[k - |a|] in b;
      }
    }
  }

  lemma EntryIdsExact(entries: seq<Entry>, id: string)
    ensures id in EntryIds(entries) <==> HasEntry(id, entries)
  {
  }

  lemma CoverageList(entries: seq<Entry>, c: Context)
    ensures var a := Coverage(Sorted(c.bySource.Keys), c.bySource, EntryIds(entries));
            (forall f :: f in a <==> CoverageShows(f, entries, c)) && BySubject(a)
  {
    CoverageMembers(Sorted(c.bySource.Keys), c.bySource, EntryIds(entries));
    forall id ensures id in EntryIds(entries) <==> HasEntry(id, entries) {
      EntryIdsExact(entries, id);
    }
    assert forall id :: id in Sorted(c.bySource.Keys) <==> id in c.bySource;
  }

  lemma ExtrasMembers(names: seq<string>, f: Failure)
    ensures f in Extras(names) <==> f.ReceiptWithoutEntry? && f.name in names
  {
    if f.ReceiptWithoutEntry? && f.name in names {
      var k :| 0 <= k < |names| && names[k] == f.name;
      assert Extras(names)[k] == f;
    }
  }

  lemma ExtraNames(entries: seq<Entry>, c: Context, name: string)
    ensures name in ReceiptFiles(c.files) - ExpectedReceipts(entries) <==>
              ExtraShows(ReceiptWithoutEntry(name), entries, c)
  {
    if Path(RECEIPT_DIR, name) in c.files {
      assert Path(RECEIPT_DIR, name).dir == RECEIPT_DIR && Path(RECEIPT_DIR, name).name == name;
    }
    if name in ReceiptFiles(c.files) {
      var p :| p in c.files && p.dir == RECEIPT_DIR && EndsWith(p.name, ".receipt.json") && p.name == name;
      assert p == Path(RECEIPT_DIR, name);
    }
  }

  lemma ExtrasList(entries: seq<Entry>, c: Context)
    ensures var b := Extras(Sorted(ReceiptFiles(c.files) - ExpectedReceipts(entries)));
            (forall f :: f in b <==> ExtraShows(f, entries, c)) && BySubject(b)
  {
    var names := Sorted(ReceiptFiles(c.files) - ExpectedReceipts(entries));
    forall f ensures f in Extras(names) <==> ExtraShows(f, entries, c) {
      ExtrasMembers(names, f);
      if f.ReceiptWithoutEntry? {
        ExtraNames(entries, c, f.name);
      }
    }
  }

  lemma {:induction false} EntriesList(entries: seq<Entry>, c: Context) returns (parts: seq<seq<Failure>>)
    ensures AllEntryFailures(entries, c).Err? <==> exists e :: e in entries && Raises(e, c)
    ensures AllEntryFailures(entries, c).Ok? ==>
              && AllEntryFailures(entries, c).value == Concat(parts) && |parts| == |entries|
              && forall k | 0 <= k < |entries| :: ListsEntry(parts[k], entries[k], c)
    decreases |entries|
  {
    parts := [];
    if entries != [] {
      var n := |entries| - 1;
      var front, last := entries[..n], entries[n];
      assert entries == front + [last] && forall e :: e in entries <==> e in front || e == last;
      var earlier := EntriesList(front, c);
      EntryList(last, c);
      if AllEntryFailures(entries, c).Ok? {
        parts := earlier + [EntryFailures(last, c).value];
        assert parts[..|parts| - 1] == earlier;
      }
    }
  }

  lemma {:induction false} SubjectUnique(l: seq<Failure>, m: seq<Failure>)
    requires BySubject(l) && BySubject(m) && forall f :: f in l <==> f in m
    ensures l == m
    decreases |l|
  {
    if l == [] {
      HeadIn(m);
    } else {
      assert l[0] in m;
      var i :| 0 <= i < |m| && m[i] == l[0];
      assert m[0] in l;
      var j :| 0 <= j < |l| && l[j] == m[0];
      if l[0] != m[0] {
        LessAsymmetric(Subject(l[0]), Subject(m[0]));
      }
      forall f ensures f in l[1..] <==> f in m[1..] {
        RestBySubject(l, f);
        RestBySubject(m, f);
      }
      SubjectUnique(l[1..], m[1..]);
    }
  }

  lemma RestBySubject(l: seq<Failure>, f: Failure)
    requires BySubject(l) && l != []
    ensures f in l[1..] <==> f in l && f != l[0]
  {
    if f in l[1..] {
      var i :| 0 <= i < |l[1..]| && l[1..][i] == f;
      LessAsymmetric(Subject(l[0]), Subject(l[i + 1]));
    }
  }

  lemma ListsOne(l: seq<Failure>, m: seq<Failure>, entries: seq<Entry>, c: Context)
    requires Lists(l, entries, c) && Lists(m, entries, c)
    ensures l == m
  {
    var a, b, parts :| Composed(l, a, b, parts, entries, c);
    var x, y, others :| Composed(m, x, y, others, entries, c);
    SubjectUnique(a, x);
    SubjectUnique(b, y);
    forall k | 0 <= k < |entries| ensures parts[k] == others[k] {
      InOrderUnique(parts[k], others[k]);
    }
    assert parts == others;
  }

  /**
   The report, exactly: it ends in an exception if some entry raises one, and otherwise it is the one list that
   holds every failure that shows, each once per entry, in the order of the checks.
   */
  lemma ReportLists(entries: seq<Entry>, c: Context, l: seq<Failure>)
    ensures Report(entries, c).Err? <==> exists e :: e in entries && Raises(e, c)
    ensures Report(entries, c) == Ok(l) <==> (forall e | e in entries :: !Raises(e, c)) && Lists(l, entries, c)
  {
    CoverageList(entries, c);
    ExtrasList(entries, c);
    var parts := EntriesList(entries, c);
    if Report(entries, c).Ok? {
      var a := Coverage(Sorted(c.bySource.Keys), c.bySource, EntryIds(entries));
      var b := Extras(Sorted(ReceiptFiles(c.files) - ExpectedReceipts(entries)));
      assert Composed(Report(entries, c).value, a, b, parts, entries, c);
      if Lists(l, entries, c) {
        ListsOne(l, Report(entries, c).value, entries, c);
      }
    }
  }

  /** The rights record the verifier uses for an identifier is the last one listed. */
  lemma {:induction false} LastRecordCounts(records: seq<RightsRecord>, id: string)
    ensures id in BySource(records) <==> exists r :: r in records && r.sourceId == id
    ensures id in BySource(records) ==>
              exists k :: 0 <= k < |records| && records[k].sourceId == id && BySource(records)[id] == records[k]
                          && forall j | k < j < |records| :: records[j].sourceId != id
    decreases |records|
  {
    if records != [] {
      var n := |records| - 1;
      var front, last := records[..n], records[n];
      assert records == front + [last] && forall r :: r in records <==> r in front || r == last;
      LastRecordCounts(front, id);
      if id == last.sourceId {
        assert records[n].sourceId == id;
      } else if id in BySource(front) {
        var k :| 0 <= k < |front| && front[k].sourceId == id && BySource(front)[id] == front[k]
                 && forall j | k < j < |front| :: front[j].sourceId != id;
        assert records[k] == front[k];
        assert forall j | k < j < |records| :: records[j].sourceId != id;
      }
    }
  }
}
