/**
 The preflight acquisition helper: validated selections, traversal-safe paths, one acquisition per
 source in identifier order, and a receipt per source. Across any sequence of runs, each failing or
 crashing anywhere, receipts stay truthful and quarantined bytes never change.
 */
module Acquisition {
  import opened Outcomes
  import opened Text
  import opened Utf8
  import opened Digests
  import opened Json
  import opened JsonAccess
  import opened Disk

  const RECEIPT_DIR := ".local/canada-preflight-receipts"
  const QUARANTINE_DIR := ".local/canada-preflight-quarantine"
  const MAX_DOWNLOAD_BYTES: nat := 64 * 1024 * 1024

  /** A registry source: its identifier and the media type of its acquisition target. */
  datatype Source = Source(sourceId: string, contentType: string)

  /** One HTTP response, or its failure; `details` are the descriptive receipt fields. */
  datatype Response =
    | Unreachable
    | Response(chunks: seq<Bytes>, contentLength: Option<nat>, accepted: bool, details: map<string, Json>)

  datatype Request = Request(
    sourceIds: seq<string>, download: bool, expected: map<string, string>, responses: map<string, Response>)

  predicate SafeId(id: string) {
    id != [] && forall c | c in id :: 'A' <= c <= 'Z' || '0' <= c <= '9' || c == '-'
  }

  function ReceiptPath(id: string): Path {
    Path(RECEIPT_DIR, id + ".receipt.json")
  }

  function Suffix(contentType: string): string {
    if contentType == "application/pdf" then ".pdf" else ".source"
  }

  function QuarantinePath(s: Source): Path {
    Path(QUARANTINE_DIR, s.sourceId + Suffix(s.contentType))
  }

  /** Where the two files of a source end up. */
  datatype FinalPair = FinalPair(receipt: Path, quarantine: Path)

  function PathsOf(s: Source): FinalPair {
    FinalPair(ReceiptPath(s.sourceId), QuarantinePath(s))
  }

  /** A safe identifier cannot leave its directory or meet another one in case, so its two files lie where they say. */
  lemma SafePaths(s: Source)
    ensures SafeId(s.sourceId) ==>
              forall c | c in s.sourceId :: c != '/' && c != '.' && !('a' <= c <= 'z') && c < 0x80 as char
    ensures PathsOf(s).receipt == Path(".local/canada-preflight-receipts", s.sourceId + ".receipt.json")
    ensures PathsOf(s).quarantine == Path(".local/canada-preflight-quarantine",
                                          s.sourceId + if s.contentType == "application/pdf" then ".pdf" else ".source")
  {
  }

  // ---------------------------------------------------------------- selection and paths

  function Matches(id: string, registry: seq<Source>): seq<Source> {
    if registry == [] then []
    else (if registry[0].sourceId == id then [registry[0]] else []) + Matches(id, registry[1..])
  }

  /** `validate_selection`, with `source_by_id` for each identifier. */
  method ValidateSelection(sourceIds: seq<string>, registry: seq<Source>, expected: map<string, string>)
    returns (r: Result<seq<Source>, AcquisitionError>)
    ensures r.Ok? <==>
              && NoRepeats(sourceIds) && (forall id | id in expected :: id in sourceIds)
              && forall id | id in sourceIds :: |Matches(id, registry)| == 1
    ensures r.Ok? ==>
              && |r.value| == |sourceIds|
              && forall k | 0 <= k < |sourceIds| :: r.value[k] in registry && r.value[k].sourceId == sourceIds[k]
    ensures r.Err? ==> r.error == SelectionRefused
  {
    if !NoRepeats(sourceIds) {
      return Err(SelectionRefused);
    }
    var known := set s | s in registry :: s.sourceId;
    if !(expected.Keys <= known) {
      MatchesKnown(registry);
      return Err(SelectionRefused);
    }
    if !(expected.Keys <= set id | id in sourceIds) {
      return Err(SelectionRefused);
    }
    var selected: seq<Source> := [];
    for k := 0 to |sourceIds|
      invariant |selected| == k
      invariant forall j | 0 <= j < k ::
                  && |Matches(sourceIds[j], registry)| == 1
                  && selected[j] in registry && selected[j].sourceId == sourceIds[j]
    {
      var matches := Matches(sourceIds[k], registry);
      if |matches| != 1 {
        assert sourceIds[k] in sourceIds;
        return Err(SelectionRefused);
      }
      MatchesAreSources(sourceIds[k], registry);
      assert matches[0] in matches;
      selected := selected + [matches[0]];
    }
    return Ok(selected);
  }

  lemma {:induction false} MatchesAreSources(id: string, registry: seq<Source>)
    ensures forall s :: s in Matches(id, registry) <==> s in registry && s.sourceId == id
  {
    if registry != [] {
      MatchesAreSources(id, registry[1..]);
    }
  }

  lemma MatchesKnown(registry: seq<Source>)
    ensures forall id | |Matches(id, registry)| == 1 :: exists s :: s in registry && s.sourceId == id
  {
    forall id | |Matches(id, registry)| == 1 ensures exists s :: s in registry && s.sourceId == id {
      MatchesAreSources(id, registry);
      assert Matches(id, registry)[0] in Matches(id, registry);
    }
  }

  lemma ReceiptPathInjective(a: string, b: string)
    requires ReceiptPath(a) == ReceiptPath(b)
    ensures a == b
  {
    SuffixInjective(a, b, ".receipt.json");
  }

  lemma QuarantinePathInjective(s: Source, t: Source)
    requires QuarantinePath(s) == QuarantinePath(t)
    ensures s.sourceId == t.sourceId
  {
    var p, q := s.sourceId + Suffix(s.contentType), t.sourceId + Suffix(t.contentType);
    assert p[|p| - 1] == Suffix(s.contentType)[|Suffix(s.contentType)| - 1];
    assert q[|q| - 1] == Suffix(t.contentType)[|Suffix(t.contentType)| - 1];
    SuffixInjective(s.sourceId, t.sourceId, Suffix(s.contentType));
  }

  lemma DirectoriesDiffer()
    ensures RECEIPT_DIR != QUARANTINE_DIR
  {
    assert |RECEIPT_DIR| != |QUARANTINE_DIR|;
  }

  function IdsOf(sources: seq<Source>): seq<string> {
    seq(|sources|, k requires 0 <= k < |sources| => sources[k].sourceId)
  }

  /** The final paths of the first `k` sources. */
  ghost predicate FinalPaths(paths: set<Path>, sources: seq<Source>, k: nat)
    requires k <= |sources|
  {
    forall p :: p in paths <==>
      exists j :: 0 <= j < k && (p == ReceiptPath(sources[j].sourceId) || p == QuarantinePath(sources[j]))
  }

  lemma CollisionIsRepetition(paths: set<Path>, sources: seq<Source>, k: nat)
    requires k < |sources| && FinalPaths(paths, sources, k)
    ensures ReceiptPath(sources[k].sourceId) in paths <==>
              exists j :: 0 <= j < k && sources[j].sourceId == sources[k].sourceId
    ensures QuarantinePath(sources[k]) in paths + {ReceiptPath(sources[k].sourceId)} ==>
              ReceiptPath(sources[k].sourceId) in paths
  {
    var s := sources[k];
    DirectoriesDiffer();
    forall j | 0 <= j < k
      ensures ReceiptPath(sources[j].sourceId) == ReceiptPath(s.sourceId) <==> sources[j].sourceId == s.sourceId
      ensures QuarantinePath(sources[j]) == QuarantinePath(s) ==> sources[j].sourceId == s.sourceId
    {
      if ReceiptPath(sources[j].sourceId) == ReceiptPath(s.sourceId) {
        ReceiptPathInjective(sources[j].sourceId, s.sourceId);
      }
      if QuarantinePath(sources[j]) == QuarantinePath(s) {
        QuarantinePathInjective(sources[j], s);
      }
    }
  }

  lemma FinalPathsStep(paths: set<Path>, sources: seq<Source>, k: nat)
    requires k < |sources| && FinalPaths(paths, sources, k)
    ensures FinalPaths(paths + {ReceiptPath(sources[k].sourceId)} + {QuarantinePath(sources[k])}, sources, k + 1)
  {
  }

  /** The first `k` sources have safe and distinct identifiers, and their two paths are filed. */
  ghost predicate PathsFiled(filed: map<string, FinalPair>, sources: seq<Source>, k: nat)
    requires k <= |sources|
  {
    && (forall j | 0 <= j < k ::
          && SafeId(sources[j].sourceId) && sources[j].sourceId in filed
          && filed[sources[j].sourceId] == PathsOf(sources[j]))
    && forall i, j | 0 <= i < j < k :: sources[i].sourceId != sources[j].sourceId
  }

  lemma PathsFiledStep(filed: map<string, FinalPair>, sources: seq<Source>, k: nat)
    requires k < |sources| && PathsFiled(filed, sources, k) && SafeId(sources[k].sourceId)
    requires forall j | 0 <= j < k :: sources[j].sourceId != sources[k].sourceId
    ensures PathsFiled(filed[sources[k].sourceId := PathsOf(sources[k])], sources, k + 1)
  {
  }

  lemma AllFiled(filed: map<string, FinalPair>, sources: seq<Source>)
    requires PathsFiled(filed, sources, |sources|)
    ensures NoRepeats(IdsOf(sources)) && forall s | s in sources ::
              SafeId(s.sourceId) && s.sourceId in filed && filed[s.sourceId] == PathsOf(s)
  {
  }

  lemma Repeated(sources: seq<Source>, k: nat)
    requires k < |sources| && exists j :: 0 <= j < k && sources[j].sourceId == sources[k].sourceId
    ensures !NoRepeats(IdsOf(sources))
  {
    var j :| 0 <= j < k && sources[j].sourceId == sources[k].sourceId;
    assert IdsOf(sources)[j] == IdsOf(sources)[k];
  }

  /** `source_paths`: refuses an unsafe identifier, and a repeated one because its paths collide. */
  method SourcePaths(sources: seq<Source>) returns (r: Result<map<string, FinalPair>, AcquisitionError>)
    ensures r.Ok? <==> NoRepeats(IdsOf(sources)) && forall s | s in sources :: SafeId(s.sourceId)
    ensures r.Ok? ==> forall s | s in sources ::
              s.sourceId in r.value && r.value[s.sourceId] == PathsOf(s)
    ensures r.Err? ==> r.error == UnsafeSourceId || r.error == PathCollision
    ensures r == Err(UnsafeSourceId) ==> exists s :: s in sources && !SafeId(s.sourceId)
    ensures r == Err(PathCollision) ==> !NoRepeats(IdsOf(sources))
  {
    var paths: map<string, FinalPair> := map[];
    var finalPaths: set<Path> := {};
    for k := 0 to |sources|
      invariant FinalPaths(finalPaths, sources, k) && PathsFiled(paths, sources, k)
    {
      var s := sources[k];
      if !SafeId(s.sourceId) {
        assert s in sources;
        return Err(UnsafeSourceId);
      }
      CollisionIsRepetition(finalPaths, sources, k);
      FinalPathsStep(finalPaths, sources, k);
      if ReceiptPath(s.sourceId) in finalPaths {
        Repeated(sources, k);
        return Err(PathCollision);
      }
      finalPaths := finalPaths + {ReceiptPath(s.sourceId)};
      if QuarantinePath(s) in finalPaths {
        assert false;
        return Err(PathCollision);
      }
      finalPaths := finalPaths + {QuarantinePath(s)};
      PathsFiledStep(paths, sources, k);
      paths := paths[s.sourceId := PathsOf(s)];
    }
    AllFiled(paths, sources);
    return Ok(paths);
  }

  // ---------------------------------------------------------------- receipts

  /** `make_receipt` and `canonical_json_bytes`: the receipt file for one observation. */
  function ReceiptFields(id: string, details: map<string, Json>, download: bool, outcome: Option<(nat, string)>)
    : map<string, Json>
  {
    details["source_id" := JString(id)]
      ["actual_byte_length" := if outcome.Some? then JInt(outcome.value.0) else JNull]
      ["sha256" := if outcome.Some? then JString(outcome.value.1) else JNull]
      ["downloaded" := JBool(download)]
  }

  /** The receipt of an accepted response, with the length and digest of what was received. */
  function ReceiptBytes(id: string, response: Response, download: bool, sha256: Bytes -> string): Bytes
    requires response.Response?
  {
    var received := Received(response.chunks);
    LineBytes(JObject(ReceiptFields(id, response.details, download,
                                    if download then Some((|received|, sha256(received))) else None)))
  }

  /**
   What a receipt says: the source, whether bytes were kept, their length and digest or nulls, and the rest as
   given.
   */
  lemma ReceiptSays(id: string, response: Response, download: bool, sha256: Bytes -> string, key: string)
    requires response.Response?
    ensures ReadJson(ReceiptBytes(id, response, download, sha256)).Some?
    ensures var v := ReadJson(ReceiptBytes(id, response, download, sha256)).value;
            var received := Received(response.chunks);
            && TextField(v, "source_id") == Some(id) && Field(v, "downloaded") == Some(JBool(download))
            && Field(v, "actual_byte_length") == Some(if download then JInt(|received|) else JNull)
            && NullableField(v, "sha256") == Some(if download then Some(sha256(received)) else None)
            && (key !in {"source_id", "downloaded", "actual_byte_length", "sha256"} ==>
                Field(v, key) == Field(JObject(response.details), key))
  {
    var received := Received(response.chunks);
    var outcome := if download then Some((|received|, sha256(received))) else None;
    ReadJsonLine(JObject(ReceiptFields(id, response.details, download, outcome)));
    ReceiptMembers(id, response.details, download, outcome, key);
  }

  lemma ReceiptMembers(id: string, details: map<string, Json>, download: bool, outcome: Option<(nat, string)>,
                       key: string)
    ensures var v := JObject(ReceiptFields(id, details, download, outcome));
            && TextField(v, "source_id") == Some(id) && Field(v, "downloaded") == Some(JBool(download))
            && Field(v, "actual_byte_length") == Some(if outcome.Some? then JInt(outcome.value.0) else JNull)
            && NullableField(v, "sha256") == Some(if outcome.Some? then Some(outcome.value.1) else None)
            && (key !in {"source_id", "downloaded", "actual_byte_length", "sha256"} ==>
                Field(v, key) == Field(JObject(details), key))
  {
  }

  predicate Claims(data: Bytes) {
    var v := ReadJson(data);
    v.Some? && v.value.JObject? && "downloaded" in v.value.fields && v.value.fields["downloaded"] == JBool(true)
  }

  /** A receipt that claims a download states the length and digest of `artifact`. */
  predicate Truthful(data: Bytes, artifact: Bytes, sha256: Bytes -> string)
    requires Claims(data)
  {
    var fields := ReadJson(data).value.fields;
    && "actual_byte_length" in fields && fields["actual_byte_length"] == JInt(|artifact|)
    && "sha256" in fields && fields["sha256"] == JString(sha256(artifact))
  }

  /** Every receipt on disk that is marked downloaded describes the bytes at its source's quarantine path. */
  ghost predicate ReceiptsTruthful(files: map<Path, Bytes>, registry: seq<Source>, sha256: Bytes -> string) {
    forall s | s in registry && ReceiptPath(s.sourceId) in files && Claims(files[ReceiptPath(s.sourceId)]) ::
      QuarantinePath(s) in files
      && Truthful(files[ReceiptPath(s.sourceId)], files[QuarantinePath(s)], sha256)
  }

  /** Nothing outside the receipt directory that existed was changed or removed. */
  ghost predicate QuarantineKept(before: map<Path, Bytes>, after: map<Path, Bytes>) {
    forall p | p in before && p.dir != RECEIPT_DIR :: p in after && after[p] == before[p]
  }

  lemma WrittenReceipt(id: string, details: map<string, Json>, download: bool, outcome: Option<(nat, string)>,
                       artifact: Bytes, sha256: Bytes -> string)
    requires download ==> outcome == Some((|artifact|, sha256(artifact)))
    ensures var data := LineBytes(JObject(ReceiptFields(id, details, download, outcome)));
            (Claims(data) <==> download) && (Claims(data) ==> Truthful(data, artifact, sha256))
  {
    ReadJsonLine(JObject(ReceiptFields(id, details, download, outcome)));
  }

  /** A later receipt or a new quarantine file of one source leaves the receipts of the others truthful. */
  lemma TruthfulFrame(before: map<Path, Bytes>, after: map<Path, Bytes>, registry: seq<Source>, sha256: Bytes -> string)
    requires ReceiptsTruthful(before, registry, sha256) && QuarantineKept(before, after)
    requires forall s | s in registry && ReceiptPath(s.sourceId) in after ::
               ReceiptPath(s.sourceId) in before && after[ReceiptPath(s.sourceId)] == before[ReceiptPath(s.sourceId)]
    ensures ReceiptsTruthful(after, registry, sha256)
  {
    DirectoriesDiffer();
  }

  /** No final path is a temporary file: temporary names end in `.part`. */
  lemma FinalIsNoPart(s: Source, target: Path)
    ensures !IsPartOf(ReceiptPath(s.sourceId), target) && !IsPartOf(QuarantinePath(s), target)
  {
    var p, q := ReceiptPath(s.sourceId), QuarantinePath(s);
    assert p.name[|p.name| - 1] == 'n';
    assert q.name[|q.name| - 1] == Suffix(s.contentType)[|Suffix(s.contentType)| - 1];
    if IsPartOf(p, target) {
      PartIsLonger(p, target);
    }
    if IsPartOf(q, target) {
      PartIsLonger(q, target);
    }
  }

  // ---------------------------------------------------------------- one source

  lemma OnlySource(id: string, registry: seq<Source>, s: Source, t: Source)
    requires |Matches(id, registry)| == 1 && s in registry && t in registry && s.sourceId == id && t.sourceId == id
    ensures s == t
  {
    MatchesAreSources(id, registry);
    assert s in Matches(id, registry) && t in Matches(id, registry);
  }

  /** Writing a truthful receipt for `s`, or failing to, keeps every receipt truthful. */
  lemma TruthfulAfterReceipt(before: map<Path, Bytes>, after: map<Path, Bytes>, registry: seq<Source>, s: Source,
                             data: Bytes, sha256: Bytes -> string)
    requires s in registry && |Matches(s.sourceId, registry)| == 1
    requires ReceiptsTruthful(before, registry, sha256)
    requires Claims(data) ==> QuarantinePath(s) in before && Truthful(data, before[QuarantinePath(s)], sha256)
    requires var target := ReceiptPath(s.sourceId);
             && OnlyParts(before, after, target, false)
             && (target in after ==> after[target] == data || (target in before && after[target] == before[target]))
    ensures ReceiptsTruthful(after, registry, sha256) && QuarantineKept(before, after)
  {
    var target := ReceiptPath(s.sourceId);
    DirectoriesDiffer();
    forall t | t in registry && ReceiptPath(t.sourceId) in after && Claims(after[ReceiptPath(t.sourceId)])
      ensures QuarantinePath(t) in after
      ensures Truthful(after[ReceiptPath(t.sourceId)], after[QuarantinePath(t)], sha256)
    {
      var p := ReceiptPath(t.sourceId);
      if p == target {
        ReceiptPathInjective(t.sourceId, s.sourceId);
        OnlySource(s.sourceId, registry, s, t);
      } else {
        FinalIsNoPart(t, target);
        assert p in before;
      }
    }
  }

  /** What one acquisition needs, faults aside: an accepted response and, with downloads, one that can be stored. */
  predicate Obtainable(files: map<Path, Bytes>, source: Source, download: bool, expected: Option<string>,
                       response: Response, sha256: Bytes -> string)
  {
    && response.Response? && response.accepted
    && (download ==> Storable(files, response.chunks, QuarantinePath(source), response.contentLength, expected,
                              MAX_DOWNLOAD_BYTES, sha256))
  }

  /** A fault, or a refusal of the response or of the artifact in place. */
  predicate DuringRun(e: AcquisitionError) {
    e != SelectionRefused && e != UnsafeSourceId && e != PathCollision
  }

  /** Why an acquisition without a fault fails. */
  predicate Declined(e: AcquisitionError, files: map<Path, Bytes>, source: Source, download: bool,
                     expected: Option<string>, response: Response, sha256: Bytes -> string)
  {
    if response.Unreachable? || !response.accepted then e == RetrievalFailed
    else download && Explains(e, files, response.chunks, QuarantinePath(source), response.contentLength, expected,
                              MAX_DOWNLOAD_BYTES, sha256)
  }

  /** The two files of `t` are as they were. */
  ghost predicate FilesKept(before: map<Path, Bytes>, after: map<Path, Bytes>, t: Source) {
    forall p | p == ReceiptPath(t.sourceId) || p == QuarantinePath(t) ::
      (p in after <==> p in before) && (p in before ==> after[p] == before[p])
  }

  /** The end of `acquire_one`: the receipt, whose truth the artifact on disk already bears out. */
  method WriteReceipt(disk: FileSystem, path: Path, source: Source, details: map<string, Json>, download: bool,
                      outcome: Option<(nat, string)>, ghost artifact: Bytes, ghost registry: seq<Source>,
                      sha256: Bytes -> string)
    returns (r: Ending<()>)
    requires path == ReceiptPath(source.sourceId)
    requires source in registry && |Matches(source.sourceId, registry)| == 1
    requires ReceiptsTruthful(disk.files, registry, sha256)
    requires download ==>
               && outcome == Some((|artifact|, sha256(artifact)))
               && QuarantinePath(source) in disk.files && disk.files[QuarantinePath(source)] == artifact
    modifies disk
    ensures ReceiptsTruthful(disk.files, registry, sha256) && QuarantineKept(old(disk.files), disk.files)
    ensures OnlyParts(old(disk.files), disk.files, ReceiptPath(source.sourceId), false)
    ensures r.Done? ==>
              && ReceiptPath(source.sourceId) in disk.files
              && disk.files[ReceiptPath(source.sourceId)]
                   == LineBytes(JObject(ReceiptFields(source.sourceId, details, download, outcome)))
    ensures disk.faults >= old(disk.faults) && (r.Done? <==> disk.faults == old(disk.faults))
    ensures r.Raised? ==> IsFault(r.error)
  {
    var data := LineBytes(JObject(ReceiptFields(source.sourceId, details, download, outcome)));
    ghost var before := disk.files;
    WrittenReceipt(source.sourceId, details, download, outcome, artifact, sha256);
    r := AtomicWrite(disk, path, data);
    TruthfulAfterReceipt(before, disk.files, registry, source, data, sha256);
  }

  /** `acquire_one`: the receipt is written only after the artifact is committed. */
  method AcquireOne(disk: FileSystem, source: Source, download: bool, paths: FinalPair, expected: Option<string>,
                    response: Response, ghost registry: seq<Source>, sha256: Bytes -> string)
    returns (r: Ending<()>)
    requires source in registry && |Matches(source.sourceId, registry)| == 1
    requires paths == PathsOf(source)
    requires Injective(sha256) && ReceiptsTruthful(disk.files, registry, sha256)
    modifies disk
    ensures ReceiptsTruthful(disk.files, registry, sha256) && QuarantineKept(old(disk.files), disk.files)
    ensures r.Done? ==>
              && response.Response? && response.accepted && ReceiptPath(source.sourceId) in disk.files
              && disk.files[ReceiptPath(source.sourceId)] == ReceiptBytes(source.sourceId, response, download, sha256)
    ensures r.Done? && download ==>
              && |Received(response.chunks)| <= MAX_DOWNLOAD_BYTES
              && (expected.Some? ==> sha256(Received(response.chunks)) == expected.value)
    ensures forall t | t in registry && t.sourceId != source.sourceId :: FilesKept(old(disk.files), disk.files, t)
    ensures disk.faults >= old(disk.faults) && (disk.faults > old(disk.faults) ==> !r.Done?)
    ensures r.Raised? ==> DuringRun(r.error)
    ensures disk.faults == old(disk.faults) ==>
              && (r.Done? <==> Obtainable(old(disk.files), source, download, expected, response, sha256))
              && (!r.Done? ==>
                    r.Raised? && Declined(r.error, old(disk.files), source, download, expected, response, sha256))
  {
    if response.Unreachable? || !response.accepted {
      return Raised(RetrievalFailed);
    }
    if download && response.contentLength.Some? && response.contentLength.value > MAX_DOWNLOAD_BYTES {
      return Raised(ContentLengthTooLarge);
    }
    var outcome: Option<(nat, string)> := None;
    ghost var start := disk.files;
    if download {
      var stored := StreamToQuarantine(disk, response.chunks, paths.quarantine, response.contentLength, expected,
                                       MAX_DOWNLOAD_BYTES, sha256);
      TruthfulAfterArtifact(start, disk.files, registry, source, sha256);
      if !stored.Done? {
        OthersKept(start, disk.files, disk.files, registry, source);
        return if stored.Crashed? then Crashed else Raised(stored.error);
      }
      outcome := Some(stored.value);
    }
    ghost var middle := disk.files;
    ghost var artifact := if download then middle[QuarantinePath(source)] else [];
    r := WriteReceipt(disk, paths.receipt, source, response.details, download, outcome, artifact, registry, sha256);
    OthersKept(start, middle, disk.files, registry, source);
  }

  /** What the download step of `s` may do to the files, however it ends. */
  ghost predicate ArtifactStep(before: map<Path, Bytes>, after: map<Path, Bytes>, s: Source) {
    && OnlyParts(before, after, QuarantinePath(s), false)
    && (QuarantinePath(s) in before ==>
          QuarantinePath(s) in after && after[QuarantinePath(s)] == before[QuarantinePath(s)])
  }

  lemma TruthfulAfterArtifact(before: map<Path, Bytes>, after: map<Path, Bytes>, registry: seq<Source>, s: Source,
                              sha256: Bytes -> string)
    requires ReceiptsTruthful(before, registry, sha256) && ArtifactStep(before, after, s)
    ensures ReceiptsTruthful(after, registry, sha256) && QuarantineKept(before, after)
  {
    DirectoriesDiffer();
    forall t | t in registry && ReceiptPath(t.sourceId) in after
      ensures ReceiptPath(t.sourceId) in before && after[ReceiptPath(t.sourceId)] == before[ReceiptPath(t.sourceId)]
    {
      FinalIsNoPart(t, QuarantinePath(s));
    }
    TruthfulFrame(before, after, registry, sha256);
  }

  lemma QuarantinesDiffer(s: Source, t: Source)
    requires s.sourceId != t.sourceId
    ensures QuarantinePath(s) != QuarantinePath(t) && ReceiptPath(s.sourceId) != ReceiptPath(t.sourceId)
    ensures QuarantinePath(s) != ReceiptPath(t.sourceId) && ReceiptPath(s.sourceId) != QuarantinePath(t)
  {
    DirectoriesDiffer();
    if QuarantinePath(s) == QuarantinePath(t) {
      QuarantinePathInjective(s, t);
    }
    if ReceiptPath(s.sourceId) == ReceiptPath(t.sourceId) {
      ReceiptPathInjective(s.sourceId, t.sourceId);
    }
  }

  lemma OthersKept(start: map<Path, Bytes>, middle: map<Path, Bytes>, end: map<Path, Bytes>, registry: seq<Source>,
                   s: Source)
    requires middle == start || OnlyParts(start, middle, QuarantinePath(s), false)
    requires end == middle || OnlyParts(middle, end, ReceiptPath(s.sourceId), false)
    ensures forall t | t in registry && t.sourceId != s.sourceId :: FilesKept(start, end, t)
  {
    forall t | t in registry && t.sourceId != s.sourceId ensures FilesKept(start, end, t) {
      QuarantinesDiffer(s, t);
      FinalIsNoPart(t, QuarantinePath(s));
      FinalIsNoPart(t, ReceiptPath(s.sourceId));
    }
  }

  // ---------------------------------------------------------------- one run, and many

  lemma KeptTransitive(a: map<Path, Bytes>, b: map<Path, Bytes>, c: map<Path, Bytes>)
    requires QuarantineKept(a, b) && QuarantineKept(b, c)
    ensures QuarantineKept(a, c)
  {
  }

  /** The paths `source_paths` resolved for every source to be acquired. */
  ghost predicate Resolved(order: seq<string>, registry: seq<Source>, paths: map<string, FinalPair>) {
    forall id | id in order ::
      |Matches(id, registry)| == 1 && id in paths
          && paths[id] == FinalPair(ReceiptPath(id), QuarantinePath(Lookup(id, registry)))
  }

  function ResponseTo(request: Request, id: string): Response {
    if id in request.responses then request.responses[id] else Unreachable
  }

  /** The receipt of this request's response is on disk, and the response met its expected digest. */
  ghost predicate ReceiptFor(files: map<Path, Bytes>, id: string, request: Request, sha256: Bytes -> string) {
    var response := ResponseTo(request, id);
    && ReceiptPath(id) in files && response.Response? && response.accepted
    && files[ReceiptPath(id)] == ReceiptBytes(id, response, request.download, sha256)
    && (request.download && id in request.expected ==> sha256(Received(response.chunks)) == request.expected[id])
  }

  ghost predicate ReceiptsFor(files: map<Path, Bytes>, ids: seq<string>, k: nat, request: Request,
                              sha256: Bytes -> string)
    requires k <= |ids|
  {
    forall j | 0 <= j < k :: ReceiptFor(files, ids[j], request, sha256)
  }

  function ExpectedFor(request: Request, id: string): Option<string> {
    if id in request.expected then Some(request.expected[id]) else None
  }

  /** The source named `id` can be acquired from these files, faults aside. */
  predicate ObtainableFor(files: map<Path, Bytes>, id: string, registry: seq<Source>, request: Request,
                          sha256: Bytes -> string)
    requires |Matches(id, registry)| == 1
  {
    Obtainable(files, Lookup(id, registry), request.download, ExpectedFor(request, id), ResponseTo(request, id), sha256)
  }

  predicate DeclinedFor(e: AcquisitionError, files: map<Path, Bytes>, id: string, registry: seq<Source>,
                        request: Request, sha256: Bytes -> string)
    requires |Matches(id, registry)| == 1
  {
    var s := Lookup(id, registry);
    Declined(e, files, s, request.download, ExpectedFor(request, id), ResponseTo(request, id), sha256)
  }

  ghost predicate AllMatched(ids: seq<string>, registry: seq<Source>) {
    forall id | id in ids :: |Matches(id, registry)| == 1
  }

  /** The run got as far as the k-th source, which cannot be acquired; those before have their receipts. */
  ghost predicate StoppedAt(k: nat, e: AcquisitionError, before: map<Path, Bytes>, after: map<Path, Bytes>,
                            order: seq<string>, registry: seq<Source>, request: Request, sha256: Bytes -> string)
    requires AllMatched(order, registry)
  {
    && k < |order| && ReceiptsFor(after, order, k, request, sha256)
    && (forall j | 0 <= j < k :: ObtainableFor(before, order[j], registry, request, sha256))
    && !ObtainableFor(before, order[k], registry, request, sha256)
    && DeclinedFor(e, before, order[k], registry, request, sha256)
    && forall j | k < j < |order| :: FilesKept(before, after, Lookup(order[j], registry))
  }

  lemma ObtainableKept(before: map<Path, Bytes>, after: map<Path, Bytes>, id: string, registry: seq<Source>,
                       request: Request, sha256: Bytes -> string)
    requires |Matches(id, registry)| == 1 && FilesKept(before, after, Lookup(id, registry))
    ensures ObtainableFor(after, id, registry, request, sha256) <==>
              ObtainableFor(before, id, registry, request, sha256)
    ensures forall e :: DeclinedFor(e, after, id, registry, request, sha256) <==>
                        DeclinedFor(e, before, id, registry, request, sha256)
  {
    var target := QuarantinePath(Lookup(id, registry));
    assert (target in after <==> target in before) && (target in before ==> after[target] == before[target]);
  }

  lemma KeptLater(before: map<Path, Bytes>, middle: map<Path, Bytes>, after: map<Path, Bytes>, order: seq<string>,
                  k: nat, registry: seq<Source>)
    requires AllMatched(order, registry) && NoRepeats(order) && k < |order|
    requires forall j | k <= j < |order| :: FilesKept(before, middle, Lookup(order[j], registry))
    requires forall t | t in registry && t.sourceId != order[k] :: FilesKept(middle, after, t)
    ensures forall j | k < j < |order| :: FilesKept(before, after, Lookup(order[j], registry))
  {
    forall j | k < j < |order| ensures FilesKept(before, after, Lookup(order[j], registry)) {
      assert order[j] in order;
      var t := Lookup(order[j], registry);
      assert FilesKept(before, middle, t) && FilesKept(middle, after, t);
    }
  }

  /** The first `k` sources have their receipts, and nothing of the others was touched. */
  ghost predicate SoFar(k: nat, before: map<Path, Bytes>, now: map<Path, Bytes>, order: seq<string>,
                        registry: seq<Source>, request: Request, sha256: Bytes -> string)
    requires AllMatched(order, registry) && k <= |order|
  {
    && QuarantineKept(before, now) && ReceiptsFor(now, order, k, request, sha256)
    && (forall j | 0 <= j < k :: order[j] in order && ObtainableFor(before, order[j], registry, request, sha256))
    && forall j | k <= j < |order| :: order[j] in order && FilesKept(before, now, Lookup(order[j], registry))
  }

  /** One more source was tried, touching only its own files. */
  lemma NextSource(before: map<Path, Bytes>, middle: map<Path, Bytes>, after: map<Path, Bytes>, order: seq<string>,
                   k: nat, registry: seq<Source>, request: Request, sha256: Bytes -> string)
    requires NoRepeats(order) && AllMatched(order, registry) && k < |order|
    requires SoFar(k, before, middle, order, registry, request, sha256) && QuarantineKept(middle, after)
    requires forall t | t in registry && t.sourceId != order[k] :: FilesKept(middle, after, t)
    ensures QuarantineKept(before, after) && ReceiptsFor(after, order, k, request, sha256)
    ensures ObtainableFor(middle, order[k], registry, request, sha256) <==>
              ObtainableFor(before, order[k], registry, request, sha256)
    ensures forall e :: DeclinedFor(e, middle, order[k], registry, request, sha256) <==>
                        DeclinedFor(e, before, order[k], registry, request, sha256)
    ensures forall j | k < j < |order| :: FilesKept(before, after, Lookup(order[j], registry))
    ensures ReceiptFor(after, order[k], request, sha256) ==> ReceiptsFor(after, order, k + 1, request, sha256)
  {
    ObtainableKept(before, middle, order[k], registry, request, sha256);
    KeptTransitive(before, middle, after);
    KeptLater(before, middle, after, order, k, registry);
    EarlierReceiptsKept(middle, after, registry, order, k, request, sha256);
  }

  lemma OneFurther(before: map<Path, Bytes>, middle: map<Path, Bytes>, after: map<Path, Bytes>, order: seq<string>,
                   k: nat, registry: seq<Source>, request: Request, sha256: Bytes -> string)
    requires AllMatched(order, registry) && k < |order|
    requires SoFar(k, before, middle, order, registry, request, sha256) && QuarantineKept(before, after)
    requires ReceiptsFor(after, order, k + 1, request, sha256)
    requires ObtainableFor(before, order[k], registry, request, sha256)
    requires forall j | k < j < |order| :: FilesKept(before, after, Lookup(order[j], registry))
    ensures SoFar(k + 1, before, after, order, registry, request, sha256)
  {
  }

  /** The loop of `main`: one acquisition per source, stopping at the first failure. */
  method AcquireAll(disk: FileSystem, registry: seq<Source>, order: seq<string>, paths: map<string, FinalPair>,
                    request: Request, sha256: Bytes -> string)
    returns (r: Ending<()>)
    requires NoRepeats(order) && AllMatched(order, registry) && Resolved(order, registry, paths)
    requires Injective(sha256) && ReceiptsTruthful(disk.files, registry, sha256)
    modifies disk
    ensures ReceiptsTruthful(disk.files, registry, sha256) && QuarantineKept(old(disk.files), disk.files)
    ensures r.Done? ==> ReceiptsFor(disk.files, order, |order|, request, sha256)
    ensures r.Done? ==> forall id | id in order :: ObtainableFor(old(disk.files), id, registry, request, sha256)
    ensures disk.faults >= old(disk.faults) && (disk.faults > old(disk.faults) ==> !r.Done?)
    ensures r.Raised? ==> DuringRun(r.error)
    ensures disk.faults == old(disk.faults) && !r.Done? ==>
              r.Raised? && exists k ::
                    StoppedAt(k, r.error, old(disk.files), disk.files, order, registry, request, sha256)
  {
    for k := 0 to |order|
      invariant ReceiptsTruthful(disk.files, registry, sha256) && disk.faults == old(disk.faults)
      invariant SoFar(k, old(disk.files), disk.files, order, registry, request, sha256)
    {
      var id := order[k];
      var source := Lookup(id, registry);
      ghost var before := disk.files;
      r := AcquireOne(disk, source, request.download, paths[id], ExpectedFor(request, id), ResponseTo(request, id),
                      registry, sha256);
      NextSource(old(disk.files), before, disk.files, order, k, registry, request, sha256);
      if !r.Done? {
        if disk.faults == old(disk.faults) {
          assert StoppedAt(k, r.error, old(disk.files), disk.files, order, registry, request, sha256);
        }
        return;
      }
      OneFurther(old(disk.files), before, disk.files, order, k, registry, request, sha256);
    }
    return Done(());
  }

  /** The identifiers are distinct and each names one source, and digests are expected of downloads of these only. */
  ghost predicate Selectable(request: Request, registry: seq<Source>) {
    && (request.download || request.expected == map[])
    && NoRepeats(request.sourceIds) && AllMatched(request.sourceIds, registry)
    && forall id | id in request.expected :: id in request.sourceIds
  }

  /** What a run without faults needs to succeed. */
  ghost predicate Fulfillable(files: map<Path, Bytes>, registry: seq<Source>, request: Request,
                              sha256: Bytes -> string) {
    && Selectable(request, registry)
    && forall id | id in request.sourceIds :: SafeId(id) && ObtainableFor(files, id, registry, request, sha256)
  }

  /** The identifiers in order and their paths, before anything is requested. */
  method Prepare(registry: seq<Source>, request: Request)
    returns (r: Result<(seq<string>, map<string, FinalPair>), AcquisitionError>)
    ensures r == Err(SelectionRefused) <==> !Selectable(request, registry)
    ensures r == Err(UnsafeSourceId) <==>
              Selectable(request, registry) && exists id | id in request.sourceIds :: !SafeId(id)
    ensures r.Err? ==> r.error == SelectionRefused || r.error == UnsafeSourceId
    ensures r.Ok? ==>
              && NoRepeats(r.value.0) && AllMatched(r.value.0, registry) && Resolved(r.value.0, registry, r.value.1)
              && (forall id :: id in r.value.0 <==> id in request.sourceIds) && StrictlyAscending(r.value.0)
  {
    if request.expected != map[] && !request.download {
      return Err(SelectionRefused);
    }
    var selection := ValidateSelection(request.sourceIds, registry, request.expected);
    if selection.Err? {
      return Err(selection.error);
    }
    var selected := selection.value;
    assert request.sourceIds == IdsOf(selected);
    var paths := SourcePaths(selected);
    SafeSelected(selected, request.sourceIds);
    if paths.Err? {
      return Err(paths.error);
    }
    var order := Sorted(set id | id in request.sourceIds);
    AscendingHasNoRepeats(order);
    ResolvedPaths(order, selected, registry, paths.value);
    return Ok((order, paths.value));
  }

  lemma ResolvedPaths(order: seq<string>, selected: seq<Source>, registry: seq<Source>, paths: map<string, FinalPair>)
    requires AllMatched(order, registry) && (forall s | s in selected :: s in registry)
    requires forall id | id in order :: id in IdsOf(selected)
    requires forall s | s in selected :: s.sourceId in paths && paths[s.sourceId] == PathsOf(s)
    ensures Resolved(order, registry, paths)
  {
    forall id | id in order
      ensures id in paths && paths[id] == FinalPair(ReceiptPath(id), QuarantinePath(Lookup(id, registry)))
    {
      var k :| 0 <= k < |selected| && IdsOf(selected)[k] == id;
      assert selected[k] in selected;
      OnlySource(id, registry, selected[k], Lookup(id, registry));
    }
  }

  lemma SafeSelected(selected: seq<Source>, ids: seq<string>)
    requires ids == IdsOf(selected)
    ensures (forall s | s in selected :: SafeId(s.sourceId)) <==> forall id | id in ids :: SafeId(id)
  {
    forall id | id in ids ensures exists s :: s in selected && s.sourceId == id {
      var k :| 0 <= k < |ids| && ids[k] == id;
      assert selected[k] in selected;
    }
    forall s | s in selected ensures s.sourceId in ids {
      var k :| 0 <= k < |selected| && selected[k] == s;
      assert ids[k] in ids;
    }
  }

  /** `main`: validates the selection and the paths, then acquires in identifier order. */
  method RunOnce(disk: FileSystem, registry: seq<Source>, request: Request, sha256: Bytes -> string)
    returns (r: Ending<()>)
    requires Injective(sha256) && ReceiptsTruthful(disk.files, registry, sha256)
    modifies disk
    ensures ReceiptsTruthful(disk.files, registry, sha256) && QuarantineKept(old(disk.files), disk.files)
    ensures r.Done? ==> forall id | id in request.sourceIds :: ReceiptFor(disk.files, id, request, sha256)
    ensures r == Raised(SelectionRefused) <==> !Selectable(request, registry)
    ensures r == Raised(UnsafeSourceId) <==>
              Selectable(request, registry) && exists id | id in request.sourceIds :: !SafeId(id)
    ensures r != Raised(PathCollision)
    ensures r == Raised(SelectionRefused) || r == Raised(UnsafeSourceId) ==> disk.files == old(disk.files)
    ensures disk.faults >= old(disk.faults) && (disk.faults > old(disk.faults) ==> !r.Done?)
    ensures disk.faults == old(disk.faults) ==>
              (r.Done? <==> Fulfillable(old(disk.files), registry, request, sha256))
  {
    var prepared := Prepare(registry, request);
    if prepared.Err? {
      return Raised(prepared.error);
    }
    var (order, paths) := prepared.value;
    r := AcquireAll(disk, registry, order, paths, request, sha256);
    assert forall id | id in request.sourceIds :: id in order;
  }

  /** The one source a validated identifier names. */
  function Lookup(id: string, registry: seq<Source>): (s: Source)
    requires |Matches(id, registry)| == 1
    ensures s in registry && s.sourceId == id
  {
    MatchesAreSources(id, registry);
    var matches := Matches(id, registry);
    assert matches[0] in matches;
    matches[0]
  }

  lemma EarlierReceiptsKept(before: map<Path, Bytes>, after: map<Path, Bytes>, registry: seq<Source>,
                            order: seq<string>, k: nat, request: Request, sha256: Bytes -> string)
    requires k < |order| && NoRepeats(order) && AllMatched(order, registry)
    requires ReceiptsFor(before, order, k, request, sha256)
    requires forall t | t in registry && t.sourceId != order[k] :: FilesKept(before, after, t)
    ensures ReceiptsFor(after, order, k, request, sha256)
    ensures ReceiptFor(after, order[k], request, sha256) ==> ReceiptsFor(after, order, k + 1, request, sha256)
  {
    forall j | 0 <= j < k ensures ReceiptFor(after, order[j], request, sha256) {
      assert order[j] in order;
      var t := Lookup(order[j], registry);
      assert t.sourceId != order[k] && FilesKept(before, after, t);
      assert ReceiptFor(before, order[j], request, sha256);
    }
  }

  /** The states between runs, the first and the last included. */
  ghost predicate Faithful(history: seq<map<Path, Bytes>>, registry: seq<Source>, sha256: Bytes -> string) {
    && (forall k | 0 <= k < |history| :: ReceiptsTruthful(history[k], registry, sha256))
    && forall j, k | 0 <= j <= k < |history| :: QuarantineKept(history[j], history[k])
  }

  lemma FaithfulStep(history: seq<map<Path, Bytes>>, next: map<Path, Bytes>, registry: seq<Source>,
                     sha256: Bytes -> string)
    requires history != [] && Faithful(history, registry, sha256)
    requires ReceiptsTruthful(next, registry, sha256) && QuarantineKept(history[|history| - 1], next)
    ensures Faithful(history + [next], registry, sha256)
  {
    forall j | 0 <= j < |history| ensures QuarantineKept(history[j], next) {
      KeptTransitive(history[j], history[|history| - 1], next);
    }
  }

  /**
   The multi-run guarantee: for a fixed registry, after each run of any sequence, with a failure or a crash
   allowed at any step of any run, every receipt marked downloaded has the length and digest of the bytes
   then at its source's quarantine path; and whatever was quarantined at any time before, by whichever run,
   still has the bytes it had.
   */
  method Campaign(disk: FileSystem, registry: seq<Source>, requests: seq<Request>, sha256: Bytes -> string)
    returns (ghost history: seq<map<Path, Bytes>>)
    requires Injective(sha256) && ReceiptsTruthful(disk.files, registry, sha256)
    modifies disk
    ensures |history| == |requests| + 1 && history[0] == old(disk.files) && history[|requests|] == disk.files
    ensures Faithful(history, registry, sha256)
  {
    history := [disk.files];
    for k := 0 to |requests|
      invariant |history| == k + 1 && history[0] == old(disk.files) && history[k] == disk.files
      invariant Faithful(history, registry, sha256)
    {
      var _ := RunOnce(disk, registry, requests[k], sha256);
      FaithfulStep(history, disk.files, registry, sha256);
      history := history + [disk.files];
    }
  }
}
