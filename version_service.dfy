/** `ModpackVersionService`: the ledger `.mrpack_version.json` in the
    Minecraft folder that records which modpack version, and which mod
    downloads, were installed, and the comparison of that record with a
    modpack on offer. */
module ModpackVersionService {
  import opened Wrappers
  import opened Text
  import opened Long64
  import opened Json
  import opened Models
  import opened Fs

  const LedgerName := ".mrpack_version.json"
  const ModsPrefix := "mods/"

  /** `minecraftPath.resolve(".mrpack_version.json")`: the folder with one
      more component. */
  function LedgerPath(mc: Path): (p: Path)
    ensures |p| == |mc| + 1 && p[..|mc|] == mc && p[|mc|] == LedgerName
  {
    mc + [LedgerName]
  }

  /** The outcome of `compareVersions`. `availableVersion` is always the
      offered version, so it is not optional here. */
  datatype VersionComparison = VersionComparison(
    isInstalled: bool,
    needsUpdate: bool,
    installedVersion: Option<string>,
    availableVersion: string,
    modsChanged: bool)

  function NotInstalled(available: string): VersionComparison
  {
    VersionComparison(false, false, None, available, false)
  }

  // ---------------------------------------------------------------------
  // The mod URLs of a manifest

  /** The elements of the manifest's `files` array; none when `files` is
      absent or not an array. */
  function FilesOf(index: Json): seq<Json>
  {
    match Get(index, "files")
    case Some(files) => if IsArray(files) then files.items else []
    case None => []
  }

  /** The text of a field read with `get`, or "" when the field is absent. */
  function TextOrEmpty(j: Json, key: string): string
  {
    match Get(j, key)
    case Some(v) => AsText(v)
    case None => ""
  }

  /** What one element of `files` contributes: the text of its first download
      when its path starts with "mods/" and its `downloads` is a non-empty
      array. */
  function ModUrl(file: Json): Option<string>
  {
    var downloads := Get(file, "downloads");
    if StartsWith(TextOrEmpty(file, "path"), ModsPrefix) && downloads.Some? && IsArray(downloads.value) && Size(downloads.value) > 0
    then Some(AsText(downloads.value.items[0]))
    else None
  }

  /** The contributed URLs in order of first occurrence, each once: the
      iteration order of the insertion-ordered set `extractModsList` fills. */
  function ModUrlList(items: seq<Json>): seq<string>
  {
    if items == [] then []
    else
      var init := ModUrlList(items[..|items| - 1]);
      match ModUrl(items[|items| - 1])
      case Some(url) => if url in init then init else init + [url]
      case None => init
  }

  /** Reference definition: every URL some element contributes. */
  function ModUrls(items: seq<Json>): set<string>
  {
    set i | 0 <= i < |items| && ModUrl(items[i]).Some? :: ModUrl(items[i]).value
  }

  /** The mod URLs of a manifest, as `extractModsList` iterates them. */
  function ModUrlsOf(index: Json): seq<string>
  {
    ModUrlList(FilesOf(index))
  }

  /** The URLs of a longer prefix: those of the shorter one and what the new
      element contributes. */
  lemma ModUrlsSnoc(items: seq<Json>)
    requires items != []
    ensures var last := ModUrl(items[|items| - 1]);
      ModUrls(items) == ModUrls(items[..|items| - 1]) + (if last.Some? then {last.value} else {})
  {
    var init := items[..|items| - 1];
    var last := ModUrl(items[|items| - 1]);
    forall u | u in ModUrls(items) ensures u in ModUrls(init) + (if last.Some? then {last.value} else {}) {
      var i :| 0 <= i < |items| && ModUrl(items[i]).Some? && ModUrl(items[i]).value == u;
      if i < |init| { assert init[i] == items[i]; }
    }
    forall u | u in ModUrls(init) ensures u in ModUrls(items) {
      var i :| 0 <= i < |init| && ModUrl(init[i]).Some? && ModUrl(init[i]).value == u;
      assert items[i] == init[i];
    }
    if last.Some? {
      assert ModUrl(items[|items| - 1]).value in ModUrls(items);
    }
  }

  /** The list holds each contributed URL exactly once, and nothing else. */
  lemma {:induction false} ModUrlListIsSet(items: seq<Json>)
    ensures Elements(ModUrlList(items)) == ModUrls(items)
    ensures Distinct(ModUrlList(items))
    ensures |ModUrlList(items)| == |ModUrls(items)|
  {
    if items != [] {
      var init := items[..|items| - 1];
      var last := ModUrl(items[|items| - 1]);
      ModUrlListIsSet(init);
      ModUrlsSnoc(items);
      var l0 := ModUrlList(init);
      assert ModUrlList(items) == if last.Some? && last.value !in l0 then l0 + [last.value] else l0;
      AddOnceStep(l0, last);
    }
  }

  /** One step of an insertion-ordered set: adding a value it already holds
      changes nothing, and adding a new one extends both list and set. */
  lemma AddOnceStep<T>(l0: seq<T>, x: Option<T>)
    requires Distinct(l0)
    ensures var l := if x.Some? && x.value !in l0 then l0 + [x.value] else l0;
      Elements(l) == Elements(l0) + (if x.Some? then {x.value} else {})
      && Distinct(l) && |l| == |Elements(l)|
  {
    var l := if x.Some? && x.value !in l0 then l0 + [x.value] else l0;
    if x.Some? && x.value !in l0 {
      ElementsSnoc(l0, x.value);
      DistinctSnoc(l0, x.value);
    } else if x.Some? {
      var i :| 0 <= i < |l0| && l0[i] == x.value;
    }
    DistinctCardinality(l);
  }

  /** `extractModsList`: adds the URL of each qualifying element to an
      insertion-ordered set. */
  method ExtractModsList(index: Json) returns (mods: seq<string>)
    ensures mods == ModUrlsOf(index)
  {
    mods := [];
    var items := FilesOf(index);
    var i := 0;
    while i < |items|
      invariant 0 <= i <= |items|
      invariant mods == ModUrlList(items[..i])
    {
      assert items[..i + 1][..i] == items[..i];
      var url := ModUrl(items[i]);
      if url.Some? && url.value !in mods {
        mods := mods + [url.value];
      }
      i := i + 1;
    }
    assert items[..i] == items;
  }

  // ---------------------------------------------------------------------
  // Writing the ledger

  /** The object `saveInstalledVersion` writes. Its key order is not kept:
      an object is a map here. */
  function LedgerRecord(info: ModpackInfo, mods: seq<string>, now: Long): Json
  {
    Obj(map[
      "name" := Str(info.name),
      "version" := Str(info.version),
      "minecraftVersion" := Str(info.minecraftVersion),
      "loader" := Str(info.loader),
      "installedAt" := Num(now),
      "mods" := StringArray(mods)])
  }

  /** `saveInstalledVersion`'s effect: the ledger file is created or replaced
      by the serialized record; opening it can throw, and then nothing is
      written. */
  function SaveSpec(nodes: Nodes, mc: Path, info: ModpackInfo, index: Json, now: Long, serialize: Json -> seq<byte>): (Outcome, Nodes)
  {
    var path := LedgerPath(mc);
    var (o, n) := OpenForWriteSpec(nodes, path);
    if o.Fail? then (o, n)
    else (Pass, n[path := File(serialize(LedgerRecord(info, ModUrlsOf(index), now)))])
  }

  /** `saveInstalledVersion`. `now` is `System.currentTimeMillis()` and
      `serialize` the pretty printer. */
  method SaveInstalledVersion(fs: FileSystem, mc: Path, info: ModpackInfo, index: Json, now: Long, serialize: Json -> seq<byte>)
    returns (o: Outcome)
    modifies fs`nodes
    ensures (o, fs.nodes) == SaveSpec(old(fs.nodes), mc, info, index, now, serialize)
  {
    var path := LedgerPath(mc);
    var mods := ExtractModsList(index);
    var text := serialize(LedgerRecord(info, mods, now));
    o := fs.OpenForWrite(path);
    if o.Fail? {
      return;
    }
    fs.Append(path, text);
    assert [] + text == text;
  }

  // ---------------------------------------------------------------------
  // Reading the ledger

  /** The text of a field read with `get`, or Kotlin null when it is absent. */
  function TextOf(j: Json, key: string): Option<string>
  {
    match Get(j, key)
    case Some(v) => Some(AsText(v))
    case None => None
  }

  /** The set of texts of the recorded `mods` elements; empty when the field
      is absent. */
  function InstalledMods(data: Json): set<string>
  {
    match Get(data, "mods")
    case Some(m) => ElementTexts(m)
    case None => {}
  }

  /** The comparison of a parsed ledger with the offered modpack. */
  function CompareRecord(data: Json, info: ModpackInfo, newMods: Option<set<string>>): VersionComparison
  {
    var installedVersion := TextOf(data, "version");
    var modsChanged := match newMods case Some(m) => InstalledMods(data) != m case None => false;
    VersionComparison(
      isInstalled := true,
      needsUpdate := installedVersion != Some(info.version) || TextOf(data, "name") != Some(info.name) || modsChanged,
      installedVersion := installedVersion,
      availableVersion := info.version,
      modsChanged := modsChanged)
  }

  /** `compareVersions`: not installed when the ledger does not exist; a
      failure when it cannot be read or parsed; otherwise the comparison of
      its record, where the mods count as changed only when a manifest is
      given and its URL set differs from the recorded one. */
  function CompareVersionsSpec(nodes: Nodes, mc: Path, info: ModpackInfo, index: Option<Json>, parse: seq<byte> -> Result<Json>): Result<VersionComparison>
  {
    var path := LedgerPath(mc);
    if !Exists(nodes, path) then Ok(NotInstalled(info.version))
    else match ReadSpec(nodes, path)
      case Err(e) => Err(e)
      case Ok(bytes) =>
        match parse(bytes)
        case Err(e) => Err(e)
        case Ok(data) =>
          Ok(CompareRecord(data, info, match index case Some(ix) => Some(Elements(ModUrlsOf(ix))) case None => None))
  }

  method CompareVersions(fs: FileSystem, mc: Path, info: ModpackInfo, index: Option<Json>, parse: seq<byte> -> Result<Json>)
    returns (r: Result<VersionComparison>)
    ensures r == CompareVersionsSpec(fs.nodes, mc, info, index, parse)
  {
    var path := LedgerPath(mc);
    if !Exists(fs.nodes, path) {
      return Ok(NotInstalled(info.version));
    }
    var bytes :- fs.OpenForRead(path);
    var data :- parse(bytes);
    var newMods: Option<set<string>> := None;
    if index.Some? {
      var mods := ExtractModsList(index.value);
      newMods := Some(Elements(mods));
    }
    r := Ok(CompareRecord(data, info, newMods));
  }

  /** `getInstalledModpackInfo`: null without a ledger; otherwise the
      recorded fields (empty when absent), no summary or loader version, the
      NONE loader type, the number of recorded mods and size 0, or a failure
      when the ledger cannot be read or parsed. */
  function GetInstalledModpackInfo(nodes: Nodes, mc: Path, parse: seq<byte> -> Result<Json>): (r: Option<Result<ModpackInfo>>)
    ensures r.None? <==> !Exists(nodes, LedgerPath(mc))
    ensures r.Some? && r.value.Ok? ==> r.value.value.loaderType == NoLoader && r.value.value.totalSize == 0 && r.value.value.summary == ""
  {
    var path := LedgerPath(mc);
    if !Exists(nodes, path) then None
    else match ReadSpec(nodes, path)
      case Err(e) => Some(Err(e))
      case Ok(bytes) =>
        match parse(bytes)
        case Err(e) => Some(Err(e))
        case Ok(data) =>
          Some(Ok(ModpackInfo(
            name := TextOrEmpty(data, "name"),
            version := TextOrEmpty(data, "version"),
            summary := "",
            minecraftVersion := TextOrEmpty(data, "minecraftVersion"),
            loader := TextOrEmpty(data, "loader"),
            loaderVersion := "",
            loaderType := NoLoader,
            modCount := match Get(data, "mods") case Some(m) => Size(m) case None => 0,
            totalSize := 0)))
  }

  // ---------------------------------------------------------------------
  // Properties

  /** Without a ledger nothing is installed and nothing needs updating,
      whatever is offered. */
  lemma NoLedger(nodes: Nodes, mc: Path, info: ModpackInfo, index: Option<Json>, parse: seq<byte> -> Result<Json>)
    requires !Exists(nodes, LedgerPath(mc))
    ensures var r := CompareVersionsSpec(nodes, mc, info, index, parse);
      && r.Ok? && !r.value.isInstalled && !r.value.needsUpdate && !r.value.modsChanged
      && r.value.installedVersion.None? && r.value.availableVersion == info.version
  {
  }

  /** A ledger that exists but cannot be read (a directory) or parsed makes
      the comparison fail rather than report "not installed". */
  lemma MalformedLedgerFails(nodes: Nodes, mc: Path, info: ModpackInfo, index: Option<Json>, parse: seq<byte> -> Result<Json>)
    requires Exists(nodes, LedgerPath(mc))
    requires ReadSpec(nodes, LedgerPath(mc)).Err? || parse(ReadSpec(nodes, LedgerPath(mc)).value).Err?
    ensures CompareVersionsSpec(nodes, mc, info, index, parse).Err?
    ensures GetInstalledModpackInfo(nodes, mc, parse).Some? && GetInstalledModpackInfo(nodes, mc, parse).value.Err?
  {
  }

  /** Without a manifest the mods never count as changed, so only the name
      and the version decide. */
  lemma NoIndexNoModsChange(nodes: Nodes, mc: Path, info: ModpackInfo, parse: seq<byte> -> Result<Json>)
    ensures var r := CompareVersionsSpec(nodes, mc, info, None, parse);
      r.Ok? ==>
        && !r.value.modsChanged
        && (r.value.needsUpdate <==> r.value.isInstalled && (r.value.installedVersion != Some(info.version) || TextOf(parse(ReadSpec(nodes, LedgerPath(mc)).value).value, "name") != Some(info.name)))
  {
  }

  /** After writing the ledger for one modpack, comparing it with an offered
      modpack reports it installed with the recorded version; the mods changed
      exactly when the offered manifest's URL set differs from the recorded
      one; and an update is due exactly when the name, the version or the mods
      differ. The serializer and the parser are assumed to invert each other
      on the record. */
  lemma SaveThenCompare(
    nodes: Nodes, mc: Path, info: ModpackInfo, index: Json, now: Long,
    serialize: Json -> seq<byte>, parse: seq<byte> -> Result<Json>,
    offered: ModpackInfo, offeredIndex: Option<Json>)
    requires parse(serialize(LedgerRecord(info, ModUrlsOf(index), now))) == Ok(LedgerRecord(info, ModUrlsOf(index), now))
    requires SaveSpec(nodes, mc, info, index, now, serialize).0.Pass?
    ensures var r := CompareVersionsSpec(SaveSpec(nodes, mc, info, index, now, serialize).1, mc, offered, offeredIndex, parse);
      && r.Ok? && r.value.isInstalled
      && r.value.installedVersion == Some(info.version)
      && r.value.availableVersion == offered.version
      && (r.value.modsChanged <==> offeredIndex.Some? && ModUrls(FilesOf(offeredIndex.value)) != ModUrls(FilesOf(index)))
      && (r.value.needsUpdate <==> offered.version != info.version || offered.name != info.name || r.value.modsChanged)
  {
    var record := LedgerRecord(info, ModUrlsOf(index), now);
    StringArrayTexts(ModUrlsOf(index));
    ModUrlListIsSet(FilesOf(index));
    assert InstalledMods(record) == ModUrls(FilesOf(index));
    if offeredIndex.Some? {
      ModUrlListIsSet(FilesOf(offeredIndex.value));
    }
  }

  /** Saving and comparing with the same modpack and manifest: installed, up
      to date, mods unchanged. */
  lemma SaveThenCompareSame(
    nodes: Nodes, mc: Path, info: ModpackInfo, index: Json, now: Long,
    serialize: Json -> seq<byte>, parse: seq<byte> -> Result<Json>)
    requires parse(serialize(LedgerRecord(info, ModUrlsOf(index), now))) == Ok(LedgerRecord(info, ModUrlsOf(index), now))
    requires SaveSpec(nodes, mc, info, index, now, serialize).0.Pass?
    ensures CompareVersionsSpec(SaveSpec(nodes, mc, info, index, now, serialize).1, mc, info, Some(index), parse)
      == Ok(VersionComparison(true, false, Some(info.version), info.version, false))
  {
    SaveThenCompare(nodes, mc, info, index, now, serialize, parse, info, Some(index));
  }

  /** After writing the ledger, reading it back gives the recorded name,
      version, Minecraft version and loader, and as mod count the number of
      distinct mod URLs. */
  lemma SaveThenGetInstalled(
    nodes: Nodes, mc: Path, info: ModpackInfo, index: Json, now: Long,
    serialize: Json -> seq<byte>, parse: seq<byte> -> Result<Json>)
    requires parse(serialize(LedgerRecord(info, ModUrlsOf(index), now))) == Ok(LedgerRecord(info, ModUrlsOf(index), now))
    requires SaveSpec(nodes, mc, info, index, now, serialize).0.Pass?
    ensures GetInstalledModpackInfo(SaveSpec(nodes, mc, info, index, now, serialize).1, mc, parse)
      == Some(Ok(ModpackInfo(info.name, info.version, "", info.minecraftVersion, info.loader, "", NoLoader, |ModUrls(FilesOf(index))|, 0)))
  {
    StringArrayTexts(ModUrlsOf(index));
    ModUrlListIsSet(FilesOf(index));
  }

  /** Writing the ledger touches only the ledger file. */
  lemma SaveTouchesOnlyLedger(nodes: Nodes, mc: Path, info: ModpackInfo, index: Json, now: Long, serialize: Json -> seq<byte>)
    ensures var (o, after) := SaveSpec(nodes, mc, info, index, now, serialize);
      && (forall p :: p != LedgerPath(mc) ==> (p in after <==> p in nodes) && (p in nodes ==> after[p] == nodes[p]))
      && (o.Fail? ==> after == nodes)
  {
  }
}
