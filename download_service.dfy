/** `DownloadService`: fetching a URL into a file, and fetching a mod file
    and checking its SHA-1. The server is an oracle from URL to response. */
module DownloadService {
  import opened Wrappers
  import opened Text
  import opened Fs
  import opened Zip
  import opened FileUtils
  import opened Models

  const HttpOk := 200
  const DownloadBufferSize: nat := 8192

  /** What a connection to a URL yields: a status code and the whole body;
      an answer with status 200 whose body breaks off (a read timeout, a
      dropped connection) after the bytes `received`, with the exception the
      next read raises; or the exception raised when no connection can be
      made. */
  datatype Response =
    | Response(status: int, body: seq<byte>)
    | Broken(received: seq<byte>, error: string)
    | Unreachable(error: string)

  /** The bytes a reader of the answer gets before it ends or breaks. */
  function Received(r: Response): seq<byte>
  {
    match r
    case Response(_, body) => body
    case Broken(received, _) => received
    case Unreachable(_) => []
  }

  function StatusMessage(url: string, status: int): string
  {
    "Error downloading: " + url + " (Status: " + IntToDecimal(status) + ")"
  }

  function HashMismatchMessage(path: string): string
  {
    "Hash verification failed for file: " + path
  }

  /** Makes sure the parent folder exists, opens the target and writes the
      bytes to it. */
  function WriteTargetSpec(nodes: Nodes, target: Path, bytes: seq<byte>): (Outcome, Nodes)
  {
    match Parent(target)
    case None => (Fail(NullPathMessage), nodes)
    case Some(parent) =>
      var (o1, n1) := EnsureDirectoryExistsSpec(nodes, parent);
      if o1.Fail? then (o1, n1)
      else
        var (o2, n2) := OpenForWriteSpec(n1, target);
        if o2.Fail? then (o2, n2) else (Pass, n2[target := File(bytes)])
  }

  /** `downloadFile`: fails on a status other than 200; otherwise makes sure
      the parent folder exists and writes the body to the target. A body
      that breaks off leaves the bytes received so far in the target and
      fails with the read's exception. */
  function DownloadFileSpec(nodes: Nodes, url: string, target: Path, fetch: string -> Response): (Outcome, Nodes)
  {
    match fetch(url)
    case Unreachable(e) => (Fail(e), nodes)
    case Response(status, body) =>
      if status != HttpOk then (Fail(StatusMessage(url, status)), nodes)
      else WriteTargetSpec(nodes, target, body)
    case Broken(received, e) =>
      var (o, n) := WriteTargetSpec(nodes, target, received);
      (if o.Fail? then o else Fail(e), n)
  }

  /** `downloadFile`, copying the body in 8192-byte reads. */
  method DownloadFile(fs: FileSystem, url: string, target: Path, fetch: string -> Response) returns (o: Outcome)
    modifies fs`nodes
    ensures (o, fs.nodes) == DownloadFileSpec(old(fs.nodes), url, target, fetch)
  {
    var response := fetch(url);
    if response.Unreachable? {
      return Fail(response.error);
    }
    if response.Response? && response.status != HttpOk {
      return Fail(StatusMessage(url, response.status));
    }
    var parent := Parent(target);
    if parent.None? {
      return Fail(NullPathMessage);
    }
    o := EnsureDirectoryExists(fs, parent.value);
    if o.Fail? {
      return;
    }
    o := fs.OpenForWrite(target);
    if o.Fail? {
      return;
    }
    CopyInChunks(fs, target, Received(response), DownloadBufferSize);
    if response.Broken? {
      o := Fail(response.error);
    }
  }

  /** `downloadAndVerifyModFile`: downloads to `minecraftPath.resolve(path)`
      and checks the hash; when the check fails or does not match, the file
      is deleted and the call fails (with the deletion's own error if that
      throws). */
  function DownloadAndVerifySpec(nodes: Nodes, locked: set<Path>, mc: Path, mod: ModFile, fetch: string -> Response, sha1: seq<byte> -> seq<byte>): (Outcome, Nodes)
  {
    var target := Resolve(mc, mod.path);
    var (o1, n1) := DownloadFileSpec(nodes, mod.downloadUrl, target, fetch);
    if o1.Fail? then (o1, n1)
    else if VerifyFileHashSpec(n1, target, mod.sha1, sha1) == Ok(true) then (Pass, n1)
    else
      var (d, n2) := DeleteIfExistsSpec(n1, locked, target);
      (Fail(if d.Err? then d.error else HashMismatchMessage(mod.path)), n2)
  }

  method DownloadAndVerifyModFile(fs: FileSystem, mc: Path, mod: ModFile, fetch: string -> Response, sha1: seq<byte> -> seq<byte>)
    returns (o: Outcome)
    modifies fs`nodes
    ensures (o, fs.nodes) == DownloadAndVerifySpec(old(fs.nodes), fs.locked, mc, mod, fetch, sha1)
  {
    var target := Resolve(mc, mod.path);
    o := DownloadFile(fs, mod.downloadUrl, target, fetch);
    if o.Fail? {
      return;
    }
    var verified := VerifyFileHash(fs, target, mod.sha1, sha1);
    if verified != Ok(true) {
      var d := fs.DeleteIfExists(target);
      o := Fail(if d.Err? then d.error else HashMismatchMessage(mod.path));
    }
  }

  /** A mod download succeeds exactly when the server answers 200, the file
      can be written and the lower-case hex SHA-1 of the body equals the
      expected text; then the target holds the body. */
  lemma DownloadAndVerifyEffect(nodes: Nodes, locked: set<Path>, mc: Path, mod: ModFile, fetch: string -> Response, sha1: seq<byte> -> seq<byte>)
    ensures var target := Resolve(mc, mod.path);
      var (o, after) := DownloadAndVerifySpec(nodes, locked, mc, mod, fetch, sha1);
      var written := DownloadFileSpec(nodes, mod.downloadUrl, target, fetch);
      && (o.Pass? <==> written.0.Pass? && Hex(sha1(fetch(mod.downloadUrl).body)) == mod.sha1)
      && (written.0.Pass? ==> fetch(mod.downloadUrl).Response? && fetch(mod.downloadUrl).status == HttpOk)
      && (o.Pass? ==> target in after && after[target] == File(fetch(mod.downloadUrl).body))
  {
  }

  /** A downloaded file that fails the check is never left behind unless the
      system refuses to delete it. */
  lemma RejectedDownloadIsDeleted(nodes: Nodes, locked: set<Path>, mc: Path, mod: ModFile, fetch: string -> Response, sha1: seq<byte> -> seq<byte>)
    requires WellFormed(nodes)
    ensures var target := Resolve(mc, mod.path);
      var (o, after) := DownloadAndVerifySpec(nodes, locked, mc, mod, fetch, sha1);
      DownloadFileSpec(nodes, mod.downloadUrl, target, fetch).0.Pass? && o.Fail? && target !in locked ==> target !in after
  {
    var target := Resolve(mc, mod.path);
    var written := DownloadFileSpec(nodes, mod.downloadUrl, target, fetch);
    if written.0.Pass? {
      DownloadFileKeepsWellFormed(nodes, mod.downloadUrl, target, fetch);
      FileHasNoChild(written.1, target);
    }
  }

  /** A mod whose body breaks off is neither checked nor deleted:
      `getOrThrow` ends the call first, and once the target was opened the
      bytes received stay there. */
  lemma BrokenModDownloadIsKept(nodes: Nodes, locked: set<Path>, mc: Path, mod: ModFile, fetch: string -> Response, sha1: seq<byte> -> seq<byte>)
    requires fetch(mod.downloadUrl).Broken?
    ensures var target := Resolve(mc, mod.path);
      var (o, after) := DownloadAndVerifySpec(nodes, locked, mc, mod, fetch, sha1);
      && o.Fail?
      && (WriteTargetSpec(nodes, target, fetch(mod.downloadUrl).received).0.Pass? ==>
            target in after && after[target] == File(fetch(mod.downloadUrl).received))
  {
    FailedDownloadLeavesPrefix(nodes, mod.downloadUrl, Resolve(mc, mod.path), fetch);
  }

  /** Downloading a mod never turns a directory into anything else: the
      target is written only when it is not a directory, and only that file
      can be deleted again. */
  lemma DownloadAndVerifyKeepsDirectories(nodes: Nodes, locked: set<Path>, mc: Path, mod: ModFile, fetch: string -> Response, sha1: seq<byte> -> seq<byte>)
    ensures KeepsDirectories(nodes, DownloadAndVerifySpec(nodes, locked, mc, mod, fetch, sha1).1)
  {
    var target := Resolve(mc, mod.path);
    DownloadFileKeepsDirectories(nodes, mod.downloadUrl, target, fetch);
    var written := DownloadFileSpec(nodes, mod.downloadUrl, target, fetch);
    if written.0.Pass? {
      KeepsDirectoriesTrans(nodes, written.1, DeleteIfExistsSpec(written.1, locked, target).1);
    }
  }

  /** Writing the target keeps every directory, and a successful write
      leaves a regular file holding the bytes at the target. */
  lemma WriteTargetKeepsDirectories(nodes: Nodes, target: Path, bytes: seq<byte>)
    ensures var (o, after) := WriteTargetSpec(nodes, target, bytes);
      && KeepsDirectories(nodes, after)
      && (o.Pass? ==> target in after && after[target] == File(bytes))
  {
    if target != [] {
      EnsureDirectoryExistsEffect(nodes, target[..|target| - 1]);
    }
  }

  /** Writing a download keeps every directory, and a successful one leaves a
      regular file at the target. */
  lemma DownloadFileKeepsDirectories(nodes: Nodes, url: string, target: Path, fetch: string -> Response)
    ensures KeepsDirectories(nodes, DownloadFileSpec(nodes, url, target, fetch).1)
    ensures DownloadFileSpec(nodes, url, target, fetch).0.Pass? ==> IsRegularFile(DownloadFileSpec(nodes, url, target, fetch).1, target)
  {
    WriteTargetKeepsDirectories(nodes, target, Received(fetch(url)));
  }

  lemma WriteTargetKeepsWellFormed(nodes: Nodes, target: Path, bytes: seq<byte>)
    requires WellFormed(nodes)
    ensures WellFormed(WriteTargetSpec(nodes, target, bytes).1)
  {
    if target != [] {
      var parent := target[..|target| - 1];
      var (o1, n1) := EnsureDirectoryExistsSpec(nodes, parent);
      if !Exists(nodes, parent) {
        CreateDirectoriesKeepsWellFormed(nodes, parent);
      }
      if o1.Pass? {
        OpenForWriteKeepsWellFormed(n1, target);
        var (o2, n2) := OpenForWriteSpec(n1, target);
        if o2.Pass? {
          AppendKeepsWellFormed(n2, target, bytes);
          assert [] + bytes == bytes;
          assert n2[target := File(bytes)] == n2[target := File(n2[target].data + bytes)];
        }
      }
    }
  }

  lemma DownloadFileKeepsWellFormed(nodes: Nodes, url: string, target: Path, fetch: string -> Response)
    requires WellFormed(nodes)
    ensures WellFormed(DownloadFileSpec(nodes, url, target, fetch).1)
  {
    WriteTargetKeepsWellFormed(nodes, target, Received(fetch(url)));
  }

  /** A failed write leaves the target as it was: only folders above it
      may have been made. */
  lemma WriteTargetFailureKeepsTarget(nodes: Nodes, target: Path, bytes: seq<byte>)
    ensures var (o, after) := WriteTargetSpec(nodes, target, bytes);
      o.Fail? ==> (target in after <==> target in nodes) && (target in nodes ==> after[target] == nodes[target])
  {
    if target != [] {
      var parent := target[..|target| - 1];
      EnsureDirectoryExistsEffect(nodes, parent);
    }
  }

  /** A download that fails leaves at the target either what was there (or
      nothing) or, when the body broke off, exactly the bytes received
      before the break: a truncated file that nothing removes. */
  lemma FailedDownloadLeavesPrefix(nodes: Nodes, url: string, target: Path, fetch: string -> Response)
    ensures var (o, after) := DownloadFileSpec(nodes, url, target, fetch);
      o.Fail? ==>
        || ((target in after <==> target in nodes) && (target in nodes ==> after[target] == nodes[target]))
        || (fetch(url).Broken? && target in after && after[target] == File(fetch(url).received))
    ensures var (o, after) := DownloadFileSpec(nodes, url, target, fetch);
      fetch(url).Broken? && WriteTargetSpec(nodes, target, fetch(url).received).0.Pass? ==>
        o == Fail(fetch(url).error) && target in after && after[target] == File(fetch(url).received)
  {
    var bytes := Received(fetch(url));
    WriteTargetKeepsDirectories(nodes, target, bytes);
    WriteTargetFailureKeepsTarget(nodes, target, bytes);
  }

  /** Downloading to a plain target changes no plain path other than the
      target and the folders above it. */
  lemma DownloadFileTouchesOnlyTarget(nodes: Nodes, url: string, target: Path, fetch: string -> Response)
    requires Plain(target)
    ensures var (o, after) := DownloadFileSpec(nodes, url, target, fetch);
      forall p :: Plain(p) && !IsPrefix(p, target) ==> (p in after <==> p in nodes) && (p in nodes ==> after[p] == nodes[p])
  {
    if target != [] {
      var parent := target[..|target| - 1];
      EnsureDirectoryExistsEffect(nodes, parent);
      var (o1, n1) := EnsureDirectoryExistsSpec(nodes, parent);
      forall p | p in n1 && p !in nodes ensures IsPrefix(p, target) {
        var k :| 1 <= k <= |parent| && p == parent[..k];
        assert p == target[..k];
      }
    }
  }
}
