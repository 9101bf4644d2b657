/** `ModpackService`: reading the Modrinth `.mrpack` manifest
    (`modrinth.index.json`) out of the archive, interpreting it, listing the
    mods to download and extracting the bundled files ("overrides"). */
module ModpackService {
  import opened Wrappers
  import opened Text
  import opened Long64
  import opened Json
  import opened Models
  import opened Zip
  import opened Fs
  import opened FileUtils

  const IndexName := "modrinth.index.json"
  const MetaInfPrefix := "META-INF/"
  const ZipBufferSize: nat := 1024
  const IndexNotFound := "modrinth.index.json not found in .mrpack file"

  /** The display strings used when the manifest leaves a field out. */
  datatype Defaults = Defaults(name: string, version: string, summary: string, minecraftVersion: string, noLoader: string)

  const ServiceDefaults := Defaults("No specified", "No specified", "Not available", "No specified", "Not specified")

  // ---------------------------------------------------------------------
  // Reading the archive

  /** `readZipEntry`: copies the current entry in 1024-byte reads until a
      read returns nothing. */
  method ReadZipEntry(e: Entry) returns (content: seq<byte>)
    ensures content == e.data
  {
    content := [];
    var pos: nat := 0;
    var chunk := ReadChunk(e.data, pos, ZipBufferSize);
    while |chunk| > 0
      invariant pos <= |e.data|
      invariant content == e.data[..pos]
      invariant chunk == ReadChunk(e.data, pos, ZipBufferSize)
      decreases |e.data| - pos
    {
      content := content + chunk;
      pos := pos + |chunk|;
      chunk := ReadChunk(e.data, pos, ZipBufferSize);
    }
    assert content == e.data;
  }

  /** The position of the first entry with the given name. */
  function FirstNamed(entries: seq<Entry>, name: string): (r: Option<nat>)
    ensures r.Some? ==> r.value < |entries| && entries[r.value].name == name
    ensures r.Some? ==> forall j :: 0 <= j < r.value ==> entries[j].name != name
    ensures r.None? ==> forall j :: 0 <= j < |entries| ==> entries[j].name != name
  {
    if entries == [] then None
    else if entries[0].name == name then Some(0)
    else match FirstNamed(entries[1..], name)
      case None => None
      case Some(i) => Some(i + 1)
  }

  /** What `loadModpackInfo` returns: the first entry named exactly
      `modrinth.index.json`, parsed and interpreted; the parser's failure;
      or, when no entry has that name, a failure (the ZIP error for a
      truncated stream, "not found" otherwise). */
  function LoadModpackInfoSpec(mrpack: Archive, parse: seq<byte> -> Result<Json>): Result<(ModpackInfo, Json)>
  {
    match FirstNamed(mrpack.entries, IndexName)
    case Some(i) =>
      (match parse(mrpack.entries[i].data)
       case Ok(root) => Ok((ModpackInfoOf(root, ServiceDefaults), root))
       case Err(e) => Err(e))
    case None => Err(if mrpack.truncated then TruncatedMessage else IndexNotFound)
  }

  /** `loadModpackInfo`: walks the entries and stops at the first index. */
  method LoadModpackInfo(mrpack: Archive, parse: seq<byte> -> Result<Json>) returns (r: Result<(ModpackInfo, Json)>)
    ensures r == LoadModpackInfoSpec(mrpack, parse)
  {
    var i := 0;
    while i < |mrpack.entries|
      invariant 0 <= i <= |mrpack.entries|
      invariant forall j :: 0 <= j < i ==> mrpack.entries[j].name != IndexName
    {
      var entry := mrpack.entries[i];
      if entry.name == IndexName {
        var content := ReadZipEntry(entry);
        var parsed := parse(content);
        if parsed.Err? {
          return Err(parsed.error);
        }
        var info := ParseModpackInfo(parsed.value, ServiceDefaults);
        return Ok((info, parsed.value));
      }
      i := i + 1;
    }
    if mrpack.truncated {
      return Err(TruncatedMessage);
    }
    return Err(IndexNotFound);
  }

  /** Only the first index entry counts; without one the load fails, so a
      file that is not a ZIP archive fails too. */
  lemma LoadModpackInfoOutcome(mrpack: Archive, parse: seq<byte> -> Result<Json>)
    ensures var r := LoadModpackInfoSpec(mrpack, parse);
      && ((forall j :: 0 <= j < |mrpack.entries| ==> mrpack.entries[j].name != IndexName) ==> r.Err?)
      && (r.Ok? ==>
            exists i :: 0 <= i < |mrpack.entries|
              && mrpack.entries[i].name == IndexName
              && (forall j :: 0 <= j < i ==> mrpack.entries[j].name != IndexName)
              && parse(mrpack.entries[i].data) == Ok(r.value.1)
              && r.value.0 == ModpackInfoOf(r.value.1, ServiceDefaults))
    ensures LoadModpackInfoSpec(Archive([], false), parse) == Err(IndexNotFound)
  {
    var r := LoadModpackInfoSpec(mrpack, parse);
    if r.Ok? {
      var i := FirstNamed(mrpack.entries, IndexName).value;
      assert parse(mrpack.entries[i].data) == Ok(r.value.1);
    }
  }

  // ---------------------------------------------------------------------
  // Interpreting the manifest

  /** The loader keys in the order they are tried, with the loader type and
      the label shown before the version. */
  const LoaderPriority: seq<(string, LoaderType, string)> :=
    [("forge", Forge, "Forge"), ("neoforge", NeoForge, "NeoForge"),
     ("fabric-loader", Fabric, "Fabric"), ("quilt-loader", Quilt, "Quilt")]

  /** `determineLoader`: the first of forge, neoforge, fabric-loader and
      quilt-loader present among the dependencies gives the type, its text
      the version and "<Label>: <version>" the display; with none present the
      type is NONE, the version empty and the display the given default. */
  function DetermineLoader(deps: Json, noLoader: string): (LoaderType, string, string)
  {
    var forge := Field(deps, "forge");
    var fabric := Field(deps, "fabric-loader");
    var quilt := Field(deps, "quilt-loader");
    var neoforge := Field(deps, "neoforge");
    if !IsMissing(forge) then (Forge, AsText(forge), "Forge: " + AsText(forge))
    else if !IsMissing(neoforge) then (NeoForge, AsText(neoforge), "NeoForge: " + AsText(neoforge))
    else if !IsMissing(fabric) then (Fabric, AsText(fabric), "Fabric: " + AsText(fabric))
    else if !IsMissing(quilt) then (Quilt, AsText(quilt), "Quilt: " + AsText(quilt))
    else (NoLoader, "", noLoader)
  }

  /** Reference reading of the priority rule: scan the key list in order and
      take the first key that is present. */
  function FirstPresentLoader(deps: Json, keys: seq<(string, LoaderType, string)>, noLoader: string): (LoaderType, string, string)
  {
    if keys == [] then (NoLoader, "", noLoader)
    else
      var (key, t, caption) := keys[0];
      if Field(deps, key) != Missing then (t, AsText(Field(deps, key)), caption + ": " + AsText(Field(deps, key)))
      else FirstPresentLoader(deps, keys[1..], noLoader)
  }

  lemma DetermineLoaderFollowsPriority(deps: Json, noLoader: string)
    ensures DetermineLoader(deps, noLoader) == FirstPresentLoader(deps, LoaderPriority, noLoader)
  {
    var k1 := LoaderPriority[1..];
    var k2 := k1[1..];
    var k3 := k2[1..];
    assert k3 == [("quilt-loader", Quilt, "Quilt")];
    var quilt := Field(deps, "quilt-loader");
    assert FirstPresentLoader(deps, k3, noLoader)
      == if quilt != Missing then (Quilt, AsText(quilt), "Quilt" + ": " + AsText(quilt)) else (NoLoader, "", noLoader);
    var fabric := Field(deps, "fabric-loader");
    assert FirstPresentLoader(deps, k2, noLoader)
      == if fabric != Missing then (Fabric, AsText(fabric), "Fabric" + ": " + AsText(fabric)) else FirstPresentLoader(deps, k3, noLoader);
    var neoforge := Field(deps, "neoforge");
    assert FirstPresentLoader(deps, k1, noLoader)
      == if neoforge != Missing then (NeoForge, AsText(neoforge), "NeoForge" + ": " + AsText(neoforge)) else FirstPresentLoader(deps, k2, noLoader);
    var forge := Field(deps, "forge");
    assert FirstPresentLoader(deps, LoaderPriority, noLoader)
      == if forge != Missing then (Forge, AsText(forge), "Forge" + ": " + AsText(forge)) else FirstPresentLoader(deps, k1, noLoader);
    assert "Forge" + ": " == "Forge: " && "NeoForge" + ": " == "NeoForge: ";
    assert "Fabric" + ": " == "Fabric: " && "Quilt" + ": " == "Quilt: ";
  }

  /** A key counts as present even when its value is null: the version is
      then the text "null". */
  lemma NullLoaderKeyStillCounts(noLoader: string)
    ensures DetermineLoader(Obj(map["forge" := Null]), noLoader) == (Forge, "null", "Forge: null")
    ensures DetermineLoader(Obj(map["fabric-loader" := Str("0.15.0"), "forge" := Null]), noLoader).0 == Forge
  {
    assert "Forge: " + "null" == "Forge: null";
  }

  /** modCount: the length of `files` when it is an array, else 0. */
  function ModCountOf(files: Json): nat
  {
    if IsArray(files) then Size(files) else 0
  }

  /** The exact sum of the `fileSize` values; a missing one counts as 0. */
  function SumFileSizes(items: seq<Json>): int
  {
    if items == [] then 0
    else SumFileSizes(items[..|items| - 1]) + AsLong(Field(items[|items| - 1], "fileSize"), 0)
  }

  /** `parseModpackInfo`'s result. */
  function ModpackInfoOf(root: Json, d: Defaults): ModpackInfo
  {
    var files := Field(root, "files");
    var deps := Field(root, "dependencies");
    var loader := DetermineLoader(deps, d.noLoader);
    ModpackInfo(
      name := AsTextOr(Field(root, "name"), d.name),
      version := AsTextOr(Field(root, "versionId"), d.version),
      summary := AsTextOr(Field(root, "summary"), d.summary),
      minecraftVersion := AsTextOr(Field(deps, "minecraft"), d.minecraftVersion),
      loader := loader.2,
      loaderVersion := loader.1,
      loaderType := loader.0,
      modCount := ModCountOf(files),
      totalSize := Wrap(SumFileSizes(Items(files))))
  }

  /** `parseModpackInfo`: counts the files and adds up their sizes in a
      `Long`, then reads the named fields with their defaults. */
  method ParseModpackInfo(root: Json, d: Defaults) returns (info: ModpackInfo)
    ensures info == ModpackInfoOf(root, d)
  {
    var files := Field(root, "files");
    var modCount := if IsArray(files) then Size(files) else 0;
    var totalSize: Long := 0;
    var items := Items(files);
    var i := 0;
    while i < |items|
      invariant 0 <= i <= |items|
      invariant totalSize == Wrap(SumFileSizes(items[..i]))
    {
      assert items[..i + 1][..i] == items[..i];
      WrapAdd(SumFileSizes(items[..i]), AsLong(Field(items[i], "fileSize"), 0));
      totalSize := Wrap(totalSize + AsLong(Field(items[i], "fileSize"), 0));
      i := i + 1;
    }
    assert items[..i] == items;
    var deps := Field(root, "dependencies");
    var loader := DetermineLoader(deps, d.noLoader);
    info := ModpackInfo(
      AsTextOr(Field(root, "name"), d.name),
      AsTextOr(Field(root, "versionId"), d.version),
      AsTextOr(Field(root, "summary"), d.summary),
      AsTextOr(Field(deps, "minecraft"), d.minecraftVersion),
      loader.2, loader.1, loader.0, modCount, totalSize);
  }

  /** Absent (or null) fields take the defaults, text fields are taken as
      they are, and the interpretation never fails. */
  lemma ModpackInfoDefaults(root: Json, d: Defaults)
    ensures var info := ModpackInfoOf(root, d);
      && (Field(root, "name") in {Missing, Null} ==> info.name == d.name)
      && (Field(root, "versionId") in {Missing, Null} ==> info.version == d.version)
      && (Field(root, "summary") in {Missing, Null} ==> info.summary == d.summary)
      && (Field(Field(root, "dependencies"), "minecraft") in {Missing, Null} ==> info.minecraftVersion == d.minecraftVersion)
      && (forall s :: Field(root, "name") == Str(s) ==> info.name == s)
      && (forall s :: Field(root, "versionId") == Str(s) ==> info.version == s)
  {
  }

  /** When the exact total fits in a `Long` it is the total; otherwise the
      total wraps around modulo 2^64. */
  lemma TotalSizeIsSum(root: Json, d: Defaults)
    ensures var files := Field(root, "files");
      && (InRange(SumFileSizes(Items(files))) ==> ModpackInfoOf(root, d).totalSize == SumFileSizes(Items(files)))
      && (!files.Arr? ==> ModpackInfoOf(root, d).totalSize == 0)
  {
  }

  // ---------------------------------------------------------------------
  // The mod files to download

  /** An element of `files` with a non-empty `downloads` array. */
  predicate HasDownloads(file: Json)
  {
    var downloads := Field(file, "downloads");
    IsArray(downloads) && Size(downloads) > 0
  }

  function ToModFile(file: Json): ModFile
    requires HasDownloads(file)
  {
    ModFile(
      path := AsText(Field(file, "path")),
      downloadUrl := AsText(Field(file, "downloads").items[0]),
      sha1 := AsText(Field(Field(file, "hashes"), "sha1")),
      fileSize := AsLong(Field(file, "fileSize"), 0))
  }

  /** The mod files of a `files` array, in manifest order. */
  function ModFilesOf(items: seq<Json>): seq<ModFile>
  {
    if items == [] then []
    else
      var init := ModFilesOf(items[..|items| - 1]);
      var last := items[|items| - 1];
      if HasDownloads(last) then init + [ToModFile(last)] else init
  }

  /** `parseModFiles`'s result: no files unless `files` is an array. */
  function ParseModFilesSpec(index: Json): seq<ModFile>
  {
    var files := Field(index, "files");
    if IsArray(files) then ModFilesOf(files.items) else []
  }

  /** `parseModFiles`: appends one ModFile per element with downloads. */
  method ParseModFiles(index: Json) returns (mods: seq<ModFile>)
    ensures mods == ParseModFilesSpec(index)
  {
    var files := Field(index, "files");
    if !IsArray(files) {
      return [];
    }
    mods := [];
    var i := 0;
    while i < |files.items|
      invariant 0 <= i <= |files.items|
      invariant mods == ModFilesOf(files.items[..i])
    {
      assert files.items[..i + 1][..i] == files.items[..i];
      var file := files.items[i];
      if HasDownloads(file) {
        mods := mods + [ToModFile(file)];
      }
      i := i + 1;
    }
    assert files.items[..i] == files.items;
  }

  /** The positions, in increasing order, of the elements with downloads. */
  function SelectedPositions(items: seq<Json>): seq<nat>
  {
    if items == [] then []
    else
      var init := SelectedPositions(items[..|items| - 1]);
      if HasDownloads(items[|items| - 1]) then init + [|items| - 1] else init
  }

  /** The selected positions are increasing positions of elements with
      downloads, and every such element is selected. */
  lemma {:induction false} SelectedPositionsExact(items: seq<Json>)
    ensures var idx := SelectedPositions(items);
      && |idx| <= |items|
      && (forall k :: 0 <= k < |idx| ==> idx[k] < |items| && HasDownloads(items[idx[k]]))
      && (forall k, l :: 0 <= k < l < |idx| ==> idx[k] < idx[l])
      && (forall i :: 0 <= i < |items| && HasDownloads(items[i]) ==> i in idx)
  {
    if items != [] {
      var init := items[..|items| - 1];
      SelectedPositionsExact(init);
      var idx0 := SelectedPositions(init);
      var idx := SelectedPositions(items);
      forall k | 0 <= k < |idx0| ensures HasDownloads(items[idx0[k]]) {
        assert init[idx0[k]] == items[idx0[k]];
      }
      forall i | 0 <= i < |items| && HasDownloads(items[i]) ensures i in idx {
        if i < |init| {
          assert init[i] == items[i];
          assert i in idx0;
        } else {
          assert idx == idx0 + [i];
        }
      }
    }
  }

  /** The mod files are exactly the elements with downloads, in manifest
      order: the k-th mod file comes from the k-th such element, and each of
      them gives one. */
  lemma {:induction false} ModFilesAreSelection(items: seq<Json>)
    ensures var idx, mods := SelectedPositions(items), ModFilesOf(items);
      && |mods| == |idx| <= |items|
      && (forall k :: 0 <= k < |idx| ==> idx[k] < |items| && HasDownloads(items[idx[k]]) && mods[k] == ToModFile(items[idx[k]]))
      && (forall k, l :: 0 <= k < l < |idx| ==> idx[k] < idx[l])
      && (forall i :: 0 <= i < |items| && HasDownloads(items[i]) ==> i in idx)
  {
    SelectedPositionsExact(items);
    ModFilesFollowSelection(items);
  }

  /** The k-th mod file comes from the k-th selected element. */
  lemma {:induction false} ModFilesFollowSelection(items: seq<Json>)
    ensures var idx, mods := SelectedPositions(items), ModFilesOf(items);
      && |mods| == |idx|
      && forall k :: 0 <= k < |idx| ==> idx[k] < |items| && HasDownloads(items[idx[k]]) && mods[k] == ToModFile(items[idx[k]])
  {
    SelectedPositionsExact(items);
    if items != [] {
      var init := items[..|items| - 1];
      ModFilesFollowSelection(init);
      SelectedPositionsExact(init);
      var idx0 := SelectedPositions(init);
      forall k | 0 <= k < |idx0| ensures items[idx0[k]] == init[idx0[k]] {
      }
    }
  }

  /** No more mod files than `modCount` counts. */
  lemma ModFilesWithinModCount(index: Json, d: Defaults)
    ensures |ParseModFilesSpec(index)| <= ModpackInfoOf(index, d).modCount
  {
    var files := Field(index, "files");
    if IsArray(files) {
      ModFilesAreSelection(files.items);
    }
  }

  // ---------------------------------------------------------------------
  // Extracting the bundled files

  /** The entries that are copied: not a directory, not the index, not under
      META-INF/. */
  predicate Included(e: Entry)
  {
    !IsDirectoryEntry(e) && e.name != IndexName && !StartsWith(e.name, MetaInfPrefix)
  }

  function Target(root: Path, e: Entry): Path
  {
    Resolve(root, e.name)
  }

  /** One included entry: ensure its parent directory exists, then write the
      entry's bytes to `root.resolve(name)`. */
  function ExtractEntrySpec(nodes: Nodes, root: Path, e: Entry): (Outcome, Nodes)
  {
    var target := Target(root, e);
    match Parent(target)
    case None => (Fail(NullPathMessage), nodes)
    case Some(parent) =>
      var (o1, n1) := EnsureDirectoryExistsSpec(nodes, parent);
      if o1.Fail? then (o1, n1)
      else
        var (o2, n2) := OpenForWriteSpec(n1, target);
        if o2.Fail? then (o2, n2) else (Pass, n2[target := File(e.data)])
  }

  /** The entries from position i on, stopping at the first failure; a
      truncated stream fails after its last entry. */
  function ExtractFrom(nodes: Nodes, root: Path, mrpack: Archive, i: nat): (Outcome, Nodes)
    requires i <= |mrpack.entries|
    decreases |mrpack.entries| - i
  {
    if i == |mrpack.entries| then
      (if mrpack.truncated then Fail(TruncatedMessage) else Pass, nodes)
    else if !Included(mrpack.entries[i]) then
      ExtractFrom(nodes, root, mrpack, i + 1)
    else
      var (o, n) := ExtractEntrySpec(nodes, root, mrpack.entries[i]);
      if o.Fail? then (o, n) else ExtractFrom(n, root, mrpack, i + 1)
  }

  /** Writes one entry, copying it in 1024-byte reads. */
  method ExtractEntry(fs: FileSystem, root: Path, e: Entry) returns (o: Outcome)
    modifies fs`nodes
    ensures (o, fs.nodes) == ExtractEntrySpec(old(fs.nodes), root, e)
  {
    var target := Target(root, e);
    var parent := Parent(target);
    if parent.None? {
      return Fail(NullPathMessage);
    }
    o := EnsureDirectoryExists(fs, parent.value);
    if o.Fail? {
      return;
    }
    o := fs.OpenForWrite(target);
    if o.Fail? {
      return;
    }
    CopyInChunks(fs, target, e.data, ZipBufferSize);
  }

  /** `extractIncludedFiles`: copies every included entry, in archive order. */
  method ExtractIncludedFiles(fs: FileSystem, mrpack: Archive, root: Path) returns (o: Outcome)
    modifies fs`nodes
    ensures (o, fs.nodes) == ExtractFrom(old(fs.nodes), root, mrpack, 0)
  {
    var i := 0;
    while i < |mrpack.entries|
      invariant 0 <= i <= |mrpack.entries|
      invariant ExtractFrom(fs.nodes, root, mrpack, i) == ExtractFrom(old(fs.nodes), root, mrpack, 0)
    {
      var entry := mrpack.entries[i];
      if Included(entry) {
        var step := ExtractEntry(fs, root, entry);
        if step.Fail? {
          return step;
        }
      }
      i := i + 1;
    }
    o := if mrpack.truncated then Fail(TruncatedMessage) else Pass;
  }

  /** Every included entry from position i on targets a plain path. */
  predicate PlainTargets(root: Path, mrpack: Archive, i: nat)
  {
    forall l :: i <= l < |mrpack.entries| && Included(mrpack.entries[l]) ==> Plain(Target(root, mrpack.entries[l]))
  }

  /** A single entry with a plain target changes only that target and the
      directories above it, keeps every other plain entry, and on success
      holds its bytes at the target. */
  lemma ExtractEntryEffect(nodes: Nodes, root: Path, e: Entry)
    requires Plain(Target(root, e))
    ensures var (o, after) := ExtractEntrySpec(nodes, root, e);
      && (forall p :: Plain(p) && !IsPrefix(p, Target(root, e)) ==> (p in after <==> p in nodes) && (p in nodes ==> after[p] == nodes[p]))
      && (forall p :: p in nodes && Plain(p) && p != Target(root, e) ==> p in after && after[p] == nodes[p])
      && (o.Pass? ==> Target(root, e) in after && after[Target(root, e)] == File(e.data))
  {
    var target := Target(root, e);
    if target != [] {
      var parent := target[..|target| - 1];
      EnsureDirectoryExistsEffect(nodes, parent);
      var (o1, n1) := EnsureDirectoryExistsSpec(nodes, parent);
      forall p | p in n1 && p !in nodes ensures IsPrefix(p, target) {
        var k :| 1 <= k <= |parent| && p == parent[..k];
        assert p == target[..k];
      }
    }
  }

  /** Plain entries that no later included entry targets keep their value,
      when those entries' targets are plain. */
  lemma {:induction false} ExtractKeeps(nodes: Nodes, root: Path, mrpack: Archive, i: nat, p: Path)
    requires i <= |mrpack.entries| && PlainTargets(root, mrpack, i)
    requires p in nodes && Plain(p)
    requires forall l :: i <= l < |mrpack.entries| && Included(mrpack.entries[l]) ==> Target(root, mrpack.entries[l]) != p
    ensures p in ExtractFrom(nodes, root, mrpack, i).1 && ExtractFrom(nodes, root, mrpack, i).1[p] == nodes[p]
    decreases |mrpack.entries| - i
  {
    if i < |mrpack.entries| {
      if Included(mrpack.entries[i]) {
        ExtractEntryEffect(nodes, root, mrpack.entries[i]);
        var (o, n) := ExtractEntrySpec(nodes, root, mrpack.entries[i]);
        if o.Pass? {
          ExtractKeeps(n, root, mrpack, i + 1, p);
        }
      } else {
        ExtractKeeps(nodes, root, mrpack, i + 1, p);
      }
    }
  }

  /** A plain path that is neither the target of an included entry nor
      above one is left exactly as it was, whatever the outcome, when those
      targets are plain: excluded entries are never written. */
  lemma {:induction false} ExtractLeavesOthersAlone(nodes: Nodes, root: Path, mrpack: Archive, i: nat, p: Path)
    requires i <= |mrpack.entries| && PlainTargets(root, mrpack, i) && Plain(p)
    requires forall l :: i <= l < |mrpack.entries| && Included(mrpack.entries[l]) ==> !IsPrefix(p, Target(root, mrpack.entries[l]))
    ensures var after := ExtractFrom(nodes, root, mrpack, i).1;
      (p in after <==> p in nodes) && (p in nodes ==> after[p] == nodes[p])
    decreases |mrpack.entries| - i
  {
    if i < |mrpack.entries| {
      if Included(mrpack.entries[i]) {
        ExtractEntryEffect(nodes, root, mrpack.entries[i]);
        var (o, n) := ExtractEntrySpec(nodes, root, mrpack.entries[i]);
        if o.Pass? {
          ExtractLeavesOthersAlone(n, root, mrpack, i + 1, p);
        }
      } else {
        ExtractLeavesOthersAlone(nodes, root, mrpack, i + 1, p);
      }
    }
  }

  /** After a successful extraction each included entry's target holds the
      bytes of the last included entry aimed at it: a later entry with the
      same name overwrites an earlier one. The targets are taken to be
      plain. */
  lemma {:induction false} ExtractWritesLastCopy(nodes: Nodes, root: Path, mrpack: Archive, i: nat, j: nat)
    requires i <= j < |mrpack.entries| && Included(mrpack.entries[j]) && PlainTargets(root, mrpack, i)
    requires forall l :: j < l < |mrpack.entries| && Included(mrpack.entries[l]) ==> Target(root, mrpack.entries[l]) != Target(root, mrpack.entries[j])
    requires ExtractFrom(nodes, root, mrpack, i).0.Pass?
    ensures var t, after := Target(root, mrpack.entries[j]), ExtractFrom(nodes, root, mrpack, i).1;
      t in after && after[t] == File(mrpack.entries[j].data)
    decreases j - i
  {
    var e := mrpack.entries[i];
    if !Included(e) {
      ExtractWritesLastCopy(nodes, root, mrpack, i + 1, j);
    } else {
      ExtractEntryEffect(nodes, root, e);
      var (o, n) := ExtractEntrySpec(nodes, root, e);
      if i == j {
        ExtractKeeps(n, root, mrpack, i + 1, Target(root, e));
      } else {
        ExtractWritesLastCopy(n, root, mrpack, i + 1, j);
      }
    }
  }

  /** Extraction keeps every proper ancestor of an entry a directory. */
  lemma ExtractEntryKeepsWellFormed(nodes: Nodes, root: Path, e: Entry)
    requires WellFormed(nodes)
    ensures WellFormed(ExtractEntrySpec(nodes, root, e).1)
  {
    var target := Target(root, e);
    if target != [] {
      var parent := target[..|target| - 1];
      var (o1, n1) := EnsureDirectoryExistsSpec(nodes, parent);
      if !Exists(nodes, parent) {
        CreateDirectoriesKeepsWellFormed(nodes, parent);
      }
      if o1.Pass? {
        OpenForWriteKeepsWellFormed(n1, target);
        var (o2, n2) := OpenForWriteSpec(n1, target);
        if o2.Pass? {
          AppendKeepsWellFormed(n2, target, e.data);
          assert n2[target] == File([]);
          assert [] + e.data == e.data;
          assert n2[target := File(e.data)] == n2[target := File(n2[target].data + e.data)];
        }
      }
    }
  }

  lemma {:induction false} ExtractKeepsWellFormed(nodes: Nodes, root: Path, mrpack: Archive, i: nat)
    requires i <= |mrpack.entries| && WellFormed(nodes)
    ensures WellFormed(ExtractFrom(nodes, root, mrpack, i).1)
    decreases |mrpack.entries| - i
  {
    if i < |mrpack.entries| {
      if Included(mrpack.entries[i]) {
        ExtractEntryKeepsWellFormed(nodes, root, mrpack.entries[i]);
        var (o, n) := ExtractEntrySpec(nodes, root, mrpack.entries[i]);
        if o.Pass? {
          ExtractKeepsWellFormed(n, root, mrpack, i + 1);
        }
      } else {
        ExtractKeepsWellFormed(nodes, root, mrpack, i + 1);
      }
    }
  }

  /** Extracting an entry never turns a directory into anything else. */
  lemma ExtractEntryKeepsDirectories(nodes: Nodes, root: Path, e: Entry)
    ensures KeepsDirectories(nodes, ExtractEntrySpec(nodes, root, e).1)
  {
    var target := Target(root, e);
    if target != [] {
      EnsureDirectoryExistsEffect(nodes, target[..|target| - 1]);
    }
  }

  /** Extraction never turns a directory into anything else, whatever the
      outcome. */
  lemma {:induction false} ExtractFromKeepsDirectories(nodes: Nodes, root: Path, mrpack: Archive, i: nat)
    requires i <= |mrpack.entries|
    ensures KeepsDirectories(nodes, ExtractFrom(nodes, root, mrpack, i).1)
    decreases |mrpack.entries| - i
  {
    if i < |mrpack.entries| {
      if Included(mrpack.entries[i]) {
        ExtractEntryKeepsDirectories(nodes, root, mrpack.entries[i]);
        var (o, n) := ExtractEntrySpec(nodes, root, mrpack.entries[i]);
        if o.Pass? {
          ExtractFromKeepsDirectories(n, root, mrpack, i + 1);
          KeepsDirectoriesTrans(nodes, n, ExtractFrom(n, root, mrpack, i + 1).1);
        }
      } else {
        ExtractFromKeepsDirectories(nodes, root, mrpack, i + 1);
      }
    }
  }
}
