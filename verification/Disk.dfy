/**
 A file system whose every operation can fail with an OS error or be the last one before a crash.
 A `Crash` outcome leaves the files exactly as that step found them and runs no cleanup, so whatever
 holds of every outcome holds at every intermediate state.
 */
module Disk {
  import opened Outcomes
  import opened Utf8

  datatype Path = Path(dir: string, name: string)

  datatype Fault = OsError | Crash

  /** The name `tempfile` gives a temporary file beside `target`. */
  function PartPath(target: Path, random: string): Path {
    Path(target.dir, "." + target.name + "." + random + ".part")
  }

  ghost predicate IsPartOf(p: Path, target: Path) {
    exists random: string :: p == PartPath(target, random)
  }

  lemma PartIsLonger(p: Path, target: Path)
    requires IsPartOf(p, target)
    ensures p != target && p.dir == target.dir && p.name != [] && p.name[|p.name| - 1] == 't'
  {
    var random :| p == PartPath(target, random);
    assert |p.name| > |target.name|;
  }

  class FileSystem {
    var files: map<Path, Bytes>

    /** How many steps have failed so far, of the disk or of the network. */
    var faults: nat

    constructor ()
      ensures files == map[] && faults == 0
    {
      files := map[];
      faults := 0;
    }

    /** Notes a failed step. */
    method Count(failed: bool)
      modifies this`faults
      ensures faults == old(faults) + if failed then 1 else 0
    {
      if failed {
        faults := faults + 1;
      }
    }

    /** Whether the connection breaks before the next chunk. */
    method Interrupted() returns (broken: bool)
      modifies this`faults
      ensures faults == old(faults) + if broken then 1 else 0
    {
      broken :| true;
      Count(broken);
    }

    /** Opens a new, empty temporary file beside `target`; an existing name is an error. */
    method CreatePart(target: Path) returns (r: Result<Path, Fault>)
      modifies this
      ensures r.Ok? ==> IsPartOf(r.value, target) && r.value !in old(files) && files == old(files)[r.value := []]
      ensures r.Err? ==> files == old(files)
      ensures faults == old(faults) + if r.Err? then 1 else 0
    {
      var fault: Option<Fault> :| true;
      var random: string :| true;
      var part := PartPath(target, random);
      Count(fault.Some? || part in files);
      if fault.Some? {
        return Err(fault.value);
      }
      if part in files {
        return Err(OsError);
      }
      files := files[part := []];
      return Ok(part);
    }

    /** Appends to an open file. A failing write may have stored any prefix. */
    method Append(p: Path, data: Bytes) returns (fault: Option<Fault>)
      requires p in files
      modifies this
      ensures files.Keys == old(files).Keys && forall q | q in files && q != p :: files[q] == old(files)[q]
      ensures fault.None? ==> files[p] == old(files)[p] + data
      ensures faults == old(faults) + if fault.Some? then 1 else 0
    {
      fault :| true;
      Count(fault.Some?);
      if fault.Some? {
        var stored: nat :| stored <= |data|;
        files := files[p := files[p] + data[..stored]];
      } else {
        files := files[p := files[p] + data];
      }
    }

    /** Flush and `fsync`. */
    method Sync(p: Path) returns (fault: Option<Fault>)
      requires p in files
      modifies this`faults
      ensures faults == old(faults) + if fault.Some? then 1 else 0
    {
      fault :| true;
      Count(fault.Some?);
    }

    /** Atomic replacement of `to` by `from`. */
    method Replace(from: Path, to: Path) returns (fault: Option<Fault>)
      requires from in files && from != to
      modifies this
      ensures fault.Some? ==> files == old(files)
      ensures fault.None? ==> files == old(files)[to := old(files)[from]] - {from}
      ensures faults == old(faults) + if fault.Some? then 1 else 0
    {
      fault :| true;
      Count(fault.Some?);
      if fault.None? {
        files := files[to := files[from]] - {from};
      }
    }

    /** `unlink(missing_ok=True)` */
    method Unlink(p: Path) returns (fault: Option<Fault>)
      modifies this
      ensures fault.Some? ==> files == old(files)
      ensures fault.None? ==> files == old(files) - {p}
      ensures faults == old(faults) + if fault.Some? then 1 else 0
    {
      fault :| true;
      Count(fault.Some?);
      if fault.None? {
        files := files - {p};
      }
    }

    /** Reads a file that exists. */
    method Read(p: Path) returns (r: Result<Bytes, Fault>)
      requires p in files
      modifies this`faults
      ensures r.Ok? ==> r.value == files[p]
      ensures faults == old(faults) + if r.Err? then 1 else 0
    {
      var fault: Option<Fault> :| true;
      Count(fault.Some?);
      if fault.Some? {
        return Err(fault.value);
      }
      return Ok(files[p]);
    }
  }

  /** How an operation of the acquisition scripts ends. A crash is not an exception: nothing after it runs. */
  datatype Ending<T> = Done(value: T) | Raised(error: AcquisitionError) | Crashed

  datatype AcquisitionError =
    | ContentLengthTooLarge
    | DownloadTooLarge
    | DigestMismatch
    | ExistingArtifactDiffers
    | RetrievalFailed
    | SelectionRefused
    | UnsafeSourceId
    | PathCollision
    | OsFailure
    | CleanupFailed

  function EndingOf<T>(fault: Fault): Ending<T> {
    if fault == Crash then Crashed else Raised(OsFailure)
  }

  /**
   What a step may leave behind beside its target: nothing, unless it crashed or could not unlink its
   own temporary file.
   */
  ghost predicate OnlyParts(before: map<Path, Bytes>, after: map<Path, Bytes>, target: Path, clean: bool) {
    && (forall p | p in before && p != target :: p in after && after[p] == before[p])
    && (forall p | p in after && p !in before && p != target :: IsPartOf(p, target) && !clean)
  }

  predicate Clean<T>(r: Ending<T>) {
    r.Done? || (r.Raised? && r.error != CleanupFailed)
  }

  /** Removes the temporary file after an exception or a commit, as the `finally` clauses do. */
  method Finish<T(0)>(disk: FileSystem, part: Path, pending: Ending<T>) returns (r: Ending<T>)
    requires !pending.Crashed? && pending != Raised(CleanupFailed)
    modifies disk
    ensures r == pending || ((r == Crashed || r == Raised(CleanupFailed)) && disk.faults == old(disk.faults) + 1)
    ensures r == pending ==> disk.faults == old(disk.faults)
    ensures r == pending ==> disk.files == old(disk.files) - {part}
    ensures r != pending ==> disk.files == old(disk.files)
  {
    var fault := disk.Unlink(part);
    if fault.None? {
      return pending;
    }
    return if fault.value.Crash? then Crashed else Raised(CleanupFailed);
  }

  /** `atomic_write_bytes`: at every moment the file holds what it held, or all of `data`. */
  method AtomicWrite(disk: FileSystem, path: Path, data: Bytes) returns (r: Ending<()>)
    modifies disk
    ensures OnlyParts(old(disk.files), disk.files, path, Clean(r))
    ensures path in disk.files ==>
              disk.files[path] == data || (path in old(disk.files) && disk.files[path] == old(disk.files)[path])
    ensures path in old(disk.files) ==> path in disk.files
    ensures r.Done? ==> disk.files == old(disk.files)[path := data]
    ensures disk.faults >= old(disk.faults) && (r.Done? <==> disk.faults == old(disk.faults))
    ensures r.Raised? ==> r.error == OsFailure || r.error == CleanupFailed
  {
    var created := disk.CreatePart(path);
    if created.Err? {
      return EndingOf(created.error);
    }
    var part := created.value;
    PartIsLonger(part, path);
    var fault := disk.Append(part, data);
    assert [] + data == data;
    if fault.None? {
      fault := disk.Sync(part);
    }
    if fault.None? {
      fault := disk.Replace(part, path);
      assert fault.None? ==> disk.files == old(disk.files)[path := data];
    }
    if fault == Some(Crash) {
      return Crashed;
    }
    r := Finish(disk, part, if fault.None? then Done(()) else Raised(OsFailure));
  }

  // ---------------------------------------------------------------- the bounded download

  /** The bytes successive `read` calls return, up to the first empty one. */
  function Received(chunks: seq<Bytes>): Bytes {
    if chunks == [] || chunks[0] == [] then [] else chunks[0] + Received(chunks[1..])
  }

  /** What a committed artifact satisfies: complete, within the bound, and of the expected digest. */
  ghost predicate Acceptable(data: Bytes, chunks: seq<Bytes>, expected: Option<string>, maxBytes: nat,
                             sha256: Bytes -> string)
  {
    data == Received(chunks) && |data| <= maxBytes && (expected.Some? ==> sha256(data) == expected.value)
  }

  /** The read loop: appends chunk by chunk and never stores more than `maxBytes`. */
  method ReadLoop(disk: FileSystem, part: Path, chunks: seq<Bytes>, maxBytes: nat) returns (r: Ending<Bytes>)
    requires part in disk.files && disk.files[part] == []
    modifies disk
    ensures disk.files.Keys == old(disk.files).Keys
    ensures forall q | q in disk.files && q != part :: disk.files[q] == old(disk.files)[q]
    ensures r.Done? ==> r.value == Received(chunks) && |r.value| <= maxBytes && disk.files[part] == r.value
    ensures r.Raised? ==> r.error == DownloadTooLarge || r.error == RetrievalFailed || r.error == OsFailure
    ensures r == Raised(DownloadTooLarge) ==> |Received(chunks)| > maxBytes
    ensures disk.faults >= old(disk.faults)
    ensures r.Done? || r == Raised(DownloadTooLarge) <==> disk.faults == old(disk.faults)
  {
    var hashed: Bytes := [];
    var next := 0;
    assert chunks[0..] == chunks;
    while next < |chunks| && chunks[next] != []
      invariant next <= |chunks|
      invariant disk.files.Keys == old(disk.files).Keys
      invariant forall q | q in disk.files && q != part :: disk.files[q] == old(disk.files)[q]
      invariant disk.files[part] == hashed && |hashed| <= maxBytes && disk.faults == old(disk.faults)
      invariant Received(chunks) == hashed + Received(chunks[next..])
    {
      var interrupted := disk.Interrupted();
      if interrupted {
        return Raised(RetrievalFailed);
      }
      var chunk := chunks[next];
      assert chunks[next..][1..] == chunks[next + 1..];
      assert Received(chunks[next..]) == chunk + Received(chunks[next + 1..]);
      assert Received(chunks) == hashed + chunk + Received(chunks[next + 1..]);
      if |hashed| + |chunk| > maxBytes {
        return Raised(DownloadTooLarge);
      }
      var fault := disk.Append(part, chunk);
      if fault.Some? {
        return EndingOf(fault.value);
      }
      hashed := hashed + chunk;
      next := next + 1;
    }
    assert Received(chunks[next..]) == [];
    return Done(hashed);
  }

  /** Digests that do not meet the expectation. */
  predicate Unexpected(digest: string, expected: Option<string>) {
    expected.Some? && expected.value != digest
  }

  /** The target holds something else already. */
  predicate Taken(files: map<Path, Bytes>, target: Path, digest: string, sha256: Bytes -> string) {
    target in files && sha256(files[target]) != digest
  }

  /** After the download: check the digest, then commit, or reuse an equal artifact, or refuse. */
  method Commit(disk: FileSystem, part: Path, target: Path, data: Bytes, expected: Option<string>,
                sha256: Bytes -> string)
    returns (r: Ending<(nat, string)>)
    requires part in disk.files && disk.files[part] == data && IsPartOf(part, target)
    modifies disk
    ensures !r.Raised? || r.error == DigestMismatch || r.error == ExistingArtifactDiffers || r.error == OsFailure
    ensures r == Raised(DigestMismatch) <==> Unexpected(sha256(data), expected)
    ensures r == Raised(ExistingArtifactDiffers) ==>
              !Unexpected(sha256(data), expected) && Taken(old(disk.files), target, sha256(data), sha256)
    ensures disk.faults >= old(disk.faults)
    ensures r == Raised(OsFailure) || r.Crashed? <==> disk.faults > old(disk.faults)
    ensures r.Done? ==> r.value == (|data|, sha256(data)) && (expected.Some? ==> sha256(data) == expected.value)
    ensures r.Done? && target in old(disk.files) ==>
              disk.files == old(disk.files) - {part} && sha256(old(disk.files)[target]) == sha256(data)
    ensures r.Done? && target !in old(disk.files) ==> disk.files == old(disk.files)[target := data] - {part}
    ensures !r.Done? ==> disk.files == old(disk.files)
  {
    PartIsLonger(part, target);
    var digest := sha256(data);
    if expected.Some? && digest != expected.value {
      return Raised(DigestMismatch);
    }
    if target in disk.files {
      var existing := disk.Read(target);
      if existing.Err? {
        return EndingOf(existing.error);
      }
      if sha256(existing.value) != digest {
        return Raised(ExistingArtifactDiffers);
      }
      var fault := disk.Unlink(part);
      if fault.Some? {
        return EndingOf(fault.value);
      }
      return Done((|data|, digest));
    }
    var fault := disk.Replace(part, target);
    if fault.Some? {
      return EndingOf(fault.value);
    }
    return Done((|data|, digest));
  }

  /** The end of a complete download, with its cleanup. */
  method SyncAndCommit(disk: FileSystem, part: Path, target: Path, data: Bytes, expected: Option<string>,
                       sha256: Bytes -> string)
    returns (r: Ending<(nat, string)>)
    requires part in disk.files && disk.files[part] == data && IsPartOf(part, target)
    modifies disk
    ensures r.Crashed? || r == Raised(CleanupFailed) ==> disk.files == old(disk.files)
    ensures r.Raised? && r.error != CleanupFailed ==> disk.files == old(disk.files) - {part}
    ensures !r.Raised? || r.error in {DigestMismatch, ExistingArtifactDiffers, OsFailure, CleanupFailed}
    ensures r == Raised(DigestMismatch) ==> Unexpected(sha256(data), expected)
    ensures r == Raised(ExistingArtifactDiffers) ==>
              !Unexpected(sha256(data), expected) && Taken(old(disk.files), target, sha256(data), sha256)
    ensures disk.faults >= old(disk.faults)
    ensures r.Crashed? || r == Raised(OsFailure) || r == Raised(CleanupFailed) <==> disk.faults > old(disk.faults)
    ensures r.Done? ==> r.value == (|data|, sha256(data)) && (expected.Some? ==> sha256(data) == expected.value)
    ensures r.Done? && target in old(disk.files) ==>
              disk.files == old(disk.files) - {part} && sha256(old(disk.files)[target]) == sha256(data)
    ensures r.Done? && target !in old(disk.files) ==> disk.files == old(disk.files)[target := data] - {part}
  {
    var fault := disk.Sync(part);
    if fault.Some? {
      r := EndingOf(fault.value);
    } else {
      r := Commit(disk, part, target, data, expected, sha256);
    }
    if r.Raised? {
      r := Finish(disk, part, r);
    }
  }

  /** The response keeps to the bound and the expectation, and the target is free or holds the same. */
  predicate Storable(files: map<Path, Bytes>, chunks: seq<Bytes>, target: Path, contentLength: Option<nat>,
                     expected: Option<string>, maxBytes: nat, sha256: Bytes -> string)
  {
    var received := Received(chunks);
    && (contentLength.Some? ==> contentLength.value <= maxBytes) && |received| <= maxBytes
    && (expected.Some? ==> expected.value == sha256(received))
    && (target in files ==> sha256(files[target]) == sha256(received))
  }

  /** What each refusal of the download says of the response and the target. */
  predicate Explains(e: AcquisitionError, files: map<Path, Bytes>, chunks: seq<Bytes>, target: Path,
                     contentLength: Option<nat>, expected: Option<string>, maxBytes: nat, sha256: Bytes -> string)
  {
    var received := Received(chunks);
    match e
    case ContentLengthTooLarge => contentLength.Some? && contentLength.value > maxBytes
    case DownloadTooLarge => |received| > maxBytes
    case DigestMismatch => |received| <= maxBytes && Unexpected(sha256(received), expected)
    case ExistingArtifactDiffers =>
      |received| <= maxBytes && !Unexpected(sha256(received), expected)
          && Taken(files, target, sha256(received), sha256)
    case _ => false
  }

  predicate IsFault(e: AcquisitionError) {
    e == RetrievalFailed || e == OsFailure || e == CleanupFailed
  }

  /**
   `stream_to_quarantine`. Whatever happens, every file that existed is untouched, and the target, if it
   is new, is the complete received data within the bound and of the expected digest.
   */
  method StreamToQuarantine(disk: FileSystem, chunks: seq<Bytes>, target: Path, contentLength: Option<nat>,
                            expected: Option<string>, maxBytes: nat, sha256: Bytes -> string)
    returns (r: Ending<(nat, string)>)
    modifies disk
    ensures OnlyParts(old(disk.files), disk.files, target, Clean(r))
    ensures target in old(disk.files) ==> target in disk.files && disk.files[target] == old(disk.files)[target]
    ensures !r.Done? && target !in old(disk.files) ==> target !in disk.files
    ensures target in disk.files && target !in old(disk.files) ==>
              Acceptable(disk.files[target], chunks, expected, maxBytes, sha256)
    ensures r.Done? ==>
              && target in disk.files && r.value == (|Received(chunks)|, sha256(Received(chunks)))
              && sha256(disk.files[target]) == r.value.1 && |Received(chunks)| <= maxBytes
              && (expected.Some? ==> r.value.1 == expected.value)
    ensures r == Raised(ContentLengthTooLarge) <==> contentLength.Some? && contentLength.value > maxBytes
    ensures r.Raised? && !IsFault(r.error) ==>
              Explains(r.error, old(disk.files), chunks, target, contentLength, expected, maxBytes, sha256)
    ensures disk.faults >= old(disk.faults)
    ensures r.Crashed? || (r.Raised? && IsFault(r.error)) <==> disk.faults > old(disk.faults)
    ensures disk.faults == old(disk.faults) ==>
              (r.Done? <==> Storable(old(disk.files), chunks, target, contentLength, expected, maxBytes, sha256))
  {
    if contentLength.Some? && contentLength.value > maxBytes {
      return Raised(ContentLengthTooLarge);
    }
    var created := disk.CreatePart(target);
    if created.Err? {
      return EndingOf(created.error);
    }
    var part := created.value;
    PartIsLonger(part, target);
    var body := ReadLoop(disk, part, chunks, maxBytes);
    if body.Crashed? {
      return Crashed;
    }
    if body.Raised? {
      r := Finish(disk, part, Raised(body.error));
      return;
    }
    r := SyncAndCommit(disk, part, target, body.value, expected, sha256);
  }
}
