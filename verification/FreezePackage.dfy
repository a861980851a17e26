/** The rights records, the freeze entries and receipts, where each file goes, and their JSON on disk. */
module FreezePackage {
  import opened Outcomes
  import opened Utf8
  import opened Json
  import opened JsonAccess
  import opened Disk

  const FREEZE_DIR := "benchmarks/corpus/canada/freeze-v0.1"
  const RECEIPT_DIR := "benchmarks/corpus/canada/freeze-v0.1/receipts"
  const SOURCE_DIR := "benchmarks/corpus/canada/freeze-v0.1/sources"
  const INTERNAL_DIR := ".local/canada-freeze-internal"

  const BLOCKED := "BLOCKED_PENDING_CLEARANCE"
  const REPOSITORY_FREEZE := "CLEAR_REPOSITORY_FREEZE"
  const INTERNAL_FREEZE := "CLEAR_INTERNAL_FREEZE_ONLY"
  const REPOSITORY_FROZEN := "REPOSITORY_FROZEN"
  const INTERNAL_ONLY := "INTERNAL_ONLY"

  const INDEX := Path(FREEZE_DIR, "INDEX.json")
  const NARRATIVE := Path(FREEZE_DIR, "ACQUISITION-FREEZE-v0.1.json")
  const SUMS256 := Path(FREEZE_DIR, "SHA256SUMS")
  const SUMS512 := Path(FREEZE_DIR, "SHA512SUMS")

  /** The two digests of a frozen body, as lowercase hexadecimal. */
  datatype Hashes = Hashes(sha256: Bytes -> string, sha512: Bytes -> string)

  datatype RightsRecord = RightsRecord(
    sourceId: string, disposition: string, storage: string, targetUrl: string, provenanceUrl: string,
    acquisitionPermitted: bool, retrievalSupported: bool, internalUseSupported: bool)

  /** An accepted response: its body, its validated media type, and the other receipt and entry fields. */
  datatype Fetched = Fetched(body: Bytes, contentType: string, details: map<string, Json>)

  datatype Entry = Entry(
    sourceId: string, disposition: string, targetUrl: string, storage: string, bytesPath: Option<string>,
    receiptPath: string, receiptId: string, byteLength: int, sha256: string, sha512: string)

  /** `SUFFIX_BY_CONTENT_TYPE` */
  function SuffixOf(contentType: string): Option<string> {
    if contentType == "application/pdf" then Some(".pdf")
    else if contentType == "application/xml" || contentType == "text/xml" then Some(".xml")
    else if contentType == "text/html" then Some(".html")
    else None
  }

  predicate IsSuffix(s: string) {
    s == ".pdf" || s == ".xml" || s == ".html"
  }

  // ---------------------------------------------------------------- paths

  /** Where the first slash stands, or the length of `s`. */
  function FirstSlash(s: string): (k: nat)
    ensures k <= |s| && '/' !in s[..k] && (k < |s| ==> s[k] == '/')
  {
    if s == [] || s[0] == '/' then 0 else
    assert s[..1 + FirstSlash(s[1..])] == [s[0]] + s[1..][..FirstSlash(s[1..])];
    1 + FirstSlash(s[1..])
  }

  /** Empty components and single dots are dropped. */
  function Kept(component: string): seq<string> {
    if component == "" || component == "." then [] else [component]
  }

  /** The components `pathlib` keeps. */
  function Components(s: string): seq<string>
    decreases |s|
  {
    if s == [] then [] else
    var k := FirstSlash(s);
    Kept(s[..k]) + if k < |s| then Components(s[k + 1..]) else []
  }

  predicate Absolute(s: string) {
    s != [] && s[0] == '/'
  }

  /** The directory above; `..` leads to it. */
  function Parent(dir: string): string {
    if dir == [] then []
    else if dir[|dir| - 1] == '/' then dir[..|dir| - 1]
    else Parent(dir[..|dir| - 1])
  }

  function Descend(dir: string, parts: seq<string>): Path
    requires parts != []
    decreases |parts|
  {
    if |parts| == 1 then Path(dir, parts[0])
    else Descend(if parts[0] == ".." then Parent(dir) else dir + "/" + parts[0], parts[1..])
  }

  /** The file that `directory / relative` names. */
  function Resolve(dir: string, relative: string): Path {
    var start, parts := if Absolute(relative) then "" else dir, Components(relative);
    if parts == [] then Path(start, "") else Descend(start, parts)
  }

  function Joined(parts: seq<string>): string {
    if parts == [] then [] else if |parts| == 1 then parts[0] else parts[0] + "/" + Joined(parts[1..])
  }

  /** One component that stands for itself. */
  predicate PlainName(s: string) {
    '/' !in s && s != "" && s != "." && s != ".."
  }

  lemma {:induction false} FirstSlashAt(folder: string, name: string)
    requires '/' !in folder
    ensures FirstSlash(folder + "/" + name) == |folder| && FirstSlash(folder) == |folder|
  {
    if folder != [] {
      assert (folder + "/" + name)[1..] == folder[1..] + "/" + name;
      assert folder[0] in folder && forall c | c in folder[1..] :: c in folder;
      FirstSlashAt(folder[1..], name);
    }
  }

  lemma PlainComponents(name: string)
    requires PlainName(name)
    ensures Components(name) == [name] && Joined(Components(name)) == name
  {
    FirstSlashAt(name, "");
    assert name[..|name|] == name;
  }

  lemma FolderComponents(folder: string, name: string)
    requires '/' !in folder
    ensures Components(folder + "/" + name) == Kept(folder) + Components(name)
  {
    FirstSlashAt(folder, name);
    var s := folder + "/" + name;
    assert s[..|folder|] == folder && s[|folder| + 1..] == name;
  }

  lemma ResolvePlain(dir: string, name: string)
    requires PlainName(name)
    ensures Resolve(dir, name) == Path(dir, name)
  {
    PlainComponents(name);
    assert name[0] in name;
  }

  lemma ResolveUnder(dir: string, folder: string, name: string)
    requires PlainName(folder) && Components(name) != []
    ensures Resolve(dir, folder + "/" + name) == Descend(dir + "/" + folder, Components(name))
  {
    FolderComponents(folder, name);
    assert folder[0] in folder && (folder + "/" + name)[0] == folder[0];
    assert ([folder] + Components(name))[1..] == Components(name);
  }

  predicate EndsWith(s: string, suffix: string) {
    |suffix| <= |s| && s[|s| - |suffix|..] == suffix
  }

  /** The components before the last slash, and the text after it. */
  function Folders(s: string): seq<string>
    decreases |s|
  {
    var k := FirstSlash(s);
    if k == |s| then [] else Kept(s[..k]) + Folders(s[k + 1..])
  }

  function Base(s: string): string
    decreases |s|
  {
    var k := FirstSlash(s);
    if k == |s| then s else Base(s[k + 1..])
  }

  /** A suffix that makes any text a component. */
  predicate Naming(suffix: string) {
    suffix != "" && '/' !in suffix && suffix[|suffix| - 1] != '.'
  }

  lemma NamedIsPlain(s: string, suffix: string)
    requires '/' !in s && Naming(suffix)
    ensures PlainName(s + suffix) && Components(s + suffix) == [s + suffix]
  {
    var name := s + suffix;
    assert name[|name| - 1] == suffix[|suffix| - 1];
    PlainComponents(name);
  }

  lemma BelowFolder(folder: string, name: string)
    requires '/' !in folder
    ensures Folders(folder + "/" + name) == Kept(folder) + Folders(name) && Base(folder + "/" + name) == Base(name)
  {
    FirstSlashAt(folder, name);
    var s := folder + "/" + name;
    assert s[..|folder|] == folder && s[|folder| + 1..] == name;
  }

  lemma Regroup<T>(a: seq<T>, b: seq<T>, c: seq<T>)
    ensures a + b + c == a + (b + c)
  {
  }

  lemma ComponentsStep(folder: string, name: string, suffix: string)
    requires '/' !in folder && Components(name + suffix) == Folders(name) + [Base(name) + suffix]
    ensures var s := folder + "/" + name; Components(s + suffix) == Folders(s) + [Base(s) + suffix]
  {
    Regroup(folder + "/", name, suffix);
    FolderComponents(folder, name + suffix);
    BelowFolder(folder, name);
    Regroup(Kept(folder), Folders(name), [Base(name) + suffix]);
  }

  lemma SplitAtSlash(s: string) returns (folder: string, name: string)
    requires '/' in s
    ensures s == folder + "/" + name && '/' !in folder
  {
    folder, name := s[..FirstSlash(s)], s[FirstSlash(s) + 1..];
  }

  lemma {:induction false} ComponentsOf(s: string, suffix: string)
    requires Naming(suffix)
    ensures Components(s + suffix) == Folders(s) + [Base(s) + suffix]
    decreases |s|
  {
    if '/' in s {
      var folder, name := SplitAtSlash(s);
      ComponentsOf(name, suffix);
      ComponentsStep(folder, name, suffix);
    } else {
      NamedIsPlain(s, suffix);
      assert Folders(s) == [] && Base(s) == s;
    }
  }

  lemma {:induction false} DescendsToLast(dir: string, parts: seq<string>)
    requires parts != []
    ensures Descend(dir, parts).name == parts[|parts| - 1]
    decreases |parts|
  {
    if |parts| > 1 {
      DescendsToLast(if parts[0] == ".." then Parent(dir) else dir + "/" + parts[0], parts[1..]);
    }
  }

  lemma ResolvedName(dir: string, s: string, suffix: string)
    requires Naming(suffix)
    ensures Resolve(dir, s + suffix).name == Base(s) + suffix
  {
    ComponentsOf(s, suffix);
    DescendsToLast(if Absolute(s + suffix) then "" else dir, Components(s + suffix));
  }

  /** Whatever an identifier looks like, the file named after it keeps the suffix. */
  lemma ResolvedSuffix(dir: string, s: string, suffix: string)
    requires Naming(suffix)
    ensures EndsWith(Resolve(dir, s + suffix).name, suffix)
  {
    ResolvedName(dir, s, suffix);
  }

  predicate IsComponent(c: string) {
    '/' !in c && c != "" && c != "."
  }

  lemma {:induction false} ComponentsAreComponents(s: string)
    ensures forall c | c in Components(s) :: IsComponent(c)
    decreases |s|
  {
    if s != [] {
      var k := FirstSlash(s);
      if k < |s| {
        ComponentsAreComponents(s[k + 1..]);
      }
    }
  }

  lemma OneComponent(c: string)
    requires IsComponent(c)
    ensures Components(c) == [c]
  {
    FirstSlashAt(c, "");
    assert c[..|c|] == c;
  }

  /** Writing the components of a path with single slashes keeps them. */
  lemma {:induction false} Rejoined(parts: seq<string>)
    requires forall c | c in parts :: IsComponent(c)
    ensures Components(Joined(parts)) == parts
    decreases |parts|
  {
    if parts != [] {
      var head, rest := parts[0], parts[1..];
      assert parts == [head] + rest && head in parts;
      if rest == [] {
        OneComponent(head);
      } else {
        Rejoined(rest);
        FolderComponents(head, Joined(rest));
      }
    }
  }

  lemma DirectoriesDiffer()
    ensures FREEZE_DIR + "/" + "receipts" == RECEIPT_DIR && FREEZE_DIR + "/" + "sources" == SOURCE_DIR
    ensures FREEZE_DIR != RECEIPT_DIR && RECEIPT_DIR != SOURCE_DIR && SOURCE_DIR != FREEZE_DIR
    ensures INTERNAL_DIR != FREEZE_DIR && INTERNAL_DIR != RECEIPT_DIR && INTERNAL_DIR != SOURCE_DIR
  {
    assert |FREEZE_DIR| == 36 && |RECEIPT_DIR| == 45 && |SOURCE_DIR| == 44 && |INTERNAL_DIR| == 29;
  }

  function ReceiptName(id: string): string { id + ".receipt.json" }

  function ReceiptRelative(id: string): string { "receipts/" + ReceiptName(id) }

  // ---------------------------------------------------------------- JSON on disk

  /** One index entry; `details` are the fields the verifier does not read. */
  function EntryJson(e: Entry, details: map<string, Json>): Json {
    JObject(details["acquisition_target_url" := JString(e.targetUrl)]
                   ["byte_length" := JInt(e.byteLength)]
                   ["frozen_bytes_path" := NullableJson(e.bytesPath)]
                   ["receipt_id" := JString(e.receiptId)]
                   ["receipt_path" := JString(e.receiptPath)]
                   ["rights_disposition" := JString(e.disposition)]
                   ["sha256" := JString(e.sha256)]
                   ["sha512" := JString(e.sha512)]
                   ["source_id" := JString(e.sourceId)]
                   ["storage_classification" := JString(e.storage)])
  }

  function DecodeEntry(v: Json): Option<Entry> {
    var id :- TextField(v, "source_id");
    var disposition :- TextField(v, "rights_disposition");
    var target :- TextField(v, "acquisition_target_url");
    var storage :- TextField(v, "storage_classification");
    var bytesPath :- NullableField(v, "frozen_bytes_path");
    var receiptPath :- TextField(v, "receipt_path");
    var receiptId :- TextField(v, "receipt_id");
    var byteLength :- IntField(v, "byte_length");
    var sha256 :- TextField(v, "sha256");
    var sha512 :- TextField(v, "sha512");
    Some(Entry(id, disposition, target, storage, bytesPath, receiptPath, receiptId, byteLength, sha256, sha512))
  }

  lemma EntryFirstHalf(e: Entry, details: map<string, Json>)
    ensures var v := EntryJson(e, details);
            && TextField(v, "storage_classification") == Some(e.storage)
            && TextField(v, "source_id") == Some(e.sourceId)
            && TextField(v, "sha512") == Some(e.sha512) && TextField(v, "sha256") == Some(e.sha256)
            && TextField(v, "rights_disposition") == Some(e.disposition)
  {
  }

  lemma EntrySecondHalf(e: Entry, details: map<string, Json>)
    ensures var v := EntryJson(e, details);
            && TextField(v, "receipt_path") == Some(e.receiptPath) && TextField(v, "receipt_id") == Some(e.receiptId)
            && NullableField(v, "frozen_bytes_path") == Some(e.bytesPath)
            && IntField(v, "byte_length") == Some(e.byteLength)
            && TextField(v, "acquisition_target_url") == Some(e.targetUrl)
  {
  }

  lemma EntryReadsBack(e: Entry, details: map<string, Json>)
    ensures DecodeEntry(EntryJson(e, details)) == Some(e)
  {
    EntryFirstHalf(e, details);
    EntrySecondHalf(e, details);
  }

  /** The receipt fields that bind it to its entry. */
  datatype ReceiptView = ReceiptView(
    sha256: string, sha512: string, byteLength: int, targetUrl: string, receiptId: string)

  function ReceiptJson(r: ReceiptView, details: map<string, Json>): Json {
    JObject(details["acquisition_target_url" := JString(r.targetUrl)]
                   ["byte_length" := JInt(r.byteLength)]
                   ["receipt_id" := JString(r.receiptId)]
                   ["sha256" := JString(r.sha256)]
                   ["sha512" := JString(r.sha512)])
  }

  function DecodeReceipt(v: Json): Option<ReceiptView> {
    var sha256 :- TextField(v, "sha256");
    var sha512 :- TextField(v, "sha512");
    var byteLength :- IntField(v, "byte_length");
    var target :- TextField(v, "acquisition_target_url");
    var receiptId :- TextField(v, "receipt_id");
    Some(ReceiptView(sha256, sha512, byteLength, target, receiptId))
  }

  lemma ReceiptReadsBack(r: ReceiptView, details: map<string, Json>)
    ensures DecodeReceipt(ReceiptJson(r, details)) == Some(r)
  {
  }

  function IndexJson(entries: seq<Json>, summary: map<string, Json>): Json {
    JObject(summary["entries" := JArray(entries)])
  }

  function DecodeIndex(data: Bytes): Option<seq<Entry>> {
    var v :- ReadJson(data);
    var items :- ArrayField(v, "entries");
    ReadAll(items, DecodeEntry)
  }
}
