/** `App`: the older installer, one class that reads the modpack, installs
    the loader, cleans the mods folder, extracts the bundled files and
    downloads the mods itself. It differs from the services in its Spanish
    defaults and messages, in requiring a `files` array, in ignoring every
    loader installer's result and in keeping a mod whose hash does not
    match. */
module App {
  import opened Wrappers
  import opened Text
  import opened Json
  import opened Zip
  import opened Models
  import opened Fs
  import opened FileUtils
  import opened FileService
  import opened DownloadService
  import opened LoaderInstallerService
  import MS = ModpackService

  const NoDetectionMessage := "⚠️ No se pudo detectar la carpeta .minecraft automáticamente"
  const NoFileSelectedMessage := "No hay archivo seleccionado"
  const AppIndexNotFound := "No se encontró modrinth.index.json en el .mrpack"
  const NoInfoMessage := "No hay información del modpack"
  const NoIndexMessage := "No se ha cargado información del modpack"
  const NoFilesMessage := "No se encontraron archivos para descargar"
  const InstalledMessage := "✅ ¡Modpack instalado correctamente!"

  /** The message of the exception `!!` raises on a null value. */
  const NullMessage := "null"

  /** The defaults `App.parseModpackInfo` substitutes. */
  const AppDefaults := MS.Defaults("No especificado", "No especificada", "No disponible", "No especificada", "No especificado")

  function InstallErrorMessage(error: string): string
  {
    "❌ Error durante la instalación: " + error
  }

  function AppExitCodeMessage(name: string, exitCode: int): string
  {
    "El instalador de " + name + " falló con código: " + IntToDecimal(exitCode)
  }

  function DownloadErrorMessage(url: string, status: int): string
  {
    "Error al descargar: " + url + " (Código: " + IntToDecimal(status) + ")"
  }

  function HashErrorMessage(path: string): string
  {
    "Hash incorrecto para el archivo: " + path
  }

  // ---------------------------------------------------------------------
  // Reading the modpack

  /** `App.loadModpackInfo` on a selected file: the first entry named
      `modrinth.index.json`, parsed and interpreted with the Spanish
      defaults. */
  function AppLoadSpec(mrpack: Archive, parse: seq<byte> -> Result<Json>): Result<(ModpackInfo, Json)>
  {
    match MS.FirstNamed(mrpack.entries, MS.IndexName)
    case Some(i) =>
      (match parse(mrpack.entries[i].data)
       case Ok(root) => Ok((MS.ModpackInfoOf(root, AppDefaults), root))
       case Err(e) => Err(e))
    case None => Err(if mrpack.truncated then TruncatedMessage else AppIndexNotFound)
  }

  /** The older reader finds the same index as the service and reads the
      same loader, mod count and total size from it; only the defaults and
      the not-found message differ. */
  lemma AppLoadAgreesWithService(mrpack: Archive, parse: seq<byte> -> Result<Json>)
    ensures var a, s := AppLoadSpec(mrpack, parse), MS.LoadModpackInfoSpec(mrpack, parse);
      && (a.Ok? <==> s.Ok?)
      && (a.Ok? ==>
            && a.value.1 == s.value.1
            && a.value.0.loaderType == s.value.0.loaderType
            && a.value.0.loaderVersion == s.value.0.loaderVersion
            && a.value.0.modCount == s.value.0.modCount
            && a.value.0.totalSize == s.value.0.totalSize)
      && (a.Err? && a.error != AppIndexNotFound ==> s == Err(a.error))
  {
  }

  /** Absent fields take the Spanish defaults; a manifest without loader
      keys has no loader, an empty version and "No especificado" shown. */
  lemma AppDefaultsApplied(root: Json)
    ensures var info := MS.ModpackInfoOf(root, AppDefaults);
      && (Field(root, "name") in {Missing, Null} ==> info.name == "No especificado")
      && (Field(root, "versionId") in {Missing, Null} ==> info.version == "No especificada")
      && (Field(root, "summary") in {Missing, Null} ==> info.summary == "No disponible")
      && (Field(Field(root, "dependencies"), "minecraft") in {Missing, Null} ==> info.minecraftVersion == "No especificada")
      && (Field(root, "dependencies") == Missing ==> info.loaderType == NoLoader && info.loaderVersion == "" && info.loader == "No especificado")
  {
    MS.ModpackInfoDefaults(root, AppDefaults);
  }

  // ---------------------------------------------------------------------
  // The loader

  /** The part of `App.installWithInstaller` inside `runCatching`. The
      arguments are None when `minecraftPath!!` throws, which happens after
      the download and before the installer starts. */
  function AppRunInstallerSpec(env: Env, trace: seq<Effect>, name: string, url: string, installer: Path, args: Option<seq<string>>)
    : (Outcome, seq<Effect>)
  {
    var t1 := trace + [Download(url, installer)];
    match env.download(trace, url, installer)
    case Fail(e) => (Fail(e), t1)
    case Pass =>
      match args
      case None => (Fail(NullMessage), t1)
      case Some(a) =>
        var command := InstallerCommand(installer, a);
        var t2 := t1 + [Run(command)];
        match env.run(t1, command)
        case Err(e) => (Fail(e), t2)
        case Ok(code) => (if code == 0 then Pass else Fail(AppExitCodeMessage(name, code)), t2)
  }

  /** `App.installWithInstaller`: creating the temporary folder can throw;
      the folder is removed afterwards, outside `runCatching`, so a failed
      removal throws too and replaces the result. */
  function AppInstallerSpec(env: Env, trace: seq<Effect>, name: string, url: string, args: Option<seq<string>>): (Completion, seq<Effect>)
  {
    var t1 := trace + [CreateTemp(TempPrefix(name))];
    match env.createTemp(trace, TempPrefix(name))
    case Err(e) => (Threw(e), t1)
    case Ok(dir) =>
      var (result, t2) := AppRunInstallerSpec(env, t1, name, url, InstallerFile(dir, name), args);
      var t3 := t2 + [RemoveTemp(dir)];
      match env.cleanup(t2, dir)
      case Fail(e) => (Threw(e), t3)
      case Pass => (Returned(result), t3)
  }

  /** An installer's returned result is dropped; only an exception counts. */
  function Escaped(r: (Completion, seq<Effect>)): (Outcome, seq<Effect>)
  {
    (match r.0 case Threw(e) => Fail(e) case Returned(_) => Pass, r.1)
  }

  /** `App.installFabric`: `minecraftPath!!` is evaluated before anything
      runs; a first attempt that returns a failure is retried once, and
      anything the retry does is caught. */
  function AppInstallFabricSpec(env: Env, trace: seq<Effect>, mcVersion: string, fabricVersion: string, mc: Option<Path>)
    : (Outcome, seq<Effect>)
  {
    match mc
    case None => (Fail(NullMessage), trace)
    case Some(root) =>
      var (first, t1) := AppInstallerSpec(env, trace, "Fabric", FabricUrl, Some(FabricArgs(mcVersion, fabricVersion, LauncherDir(root))));
      match first
      case Threw(e) => (Fail(e), t1)
      case Returned(Pass) => (Pass, t1)
      case Returned(Fail(_)) =>
        var (_, t2) := AppInstallerSpec(env, t1, "Fabric", FabricUrl, Some(FabricArgs(mcVersion, fabricVersion, root)));
        (Pass, t2)
  }

  /** `App.installLoader`: fails without a modpack description, does nothing
      without a loader, and otherwise fails only when an installer throws. */
  function AppInstallLoaderSpec(env: Env, trace: seq<Effect>, info: Option<ModpackInfo>, mc: Option<Path>): (Outcome, seq<Effect>)
  {
    match info
    case None => (Fail(NoInfoMessage), trace)
    case Some(i) =>
      match i.loaderType
      case NoLoader => (Pass, trace)
      case Forge =>
        Escaped(AppInstallerSpec(env, trace, "Forge", ForgeUrl(i.minecraftVersion, i.loaderVersion),
                                 if mc.Some? then Some(ClientArgs(mc.value)) else None))
      case NeoForge =>
        Escaped(AppInstallerSpec(env, trace, "NeoForge", NeoForgeUrl(i.loaderVersion),
                                 if mc.Some? then Some(ClientArgs(mc.value)) else None))
      case Quilt =>
        Escaped(AppInstallerSpec(env, trace, "Quilt", QuiltUrl,
                                 if mc.Some? then Some(QuiltArgs(i.minecraftVersion, i.loaderVersion, mc.value)) else None))
      case Fabric => AppInstallFabricSpec(env, trace, i.minecraftVersion, i.loaderVersion, mc)
  }

  /** When temporary folders can always be made and removed, the loader step
      never stops the install, whatever the downloads and the installers'
      exit codes: their results are discarded. */
  lemma AppLoaderFailuresIgnored(env: Env, trace: seq<Effect>, info: Option<ModpackInfo>, mc: Option<Path>)
    requires forall t, prefix :: env.createTemp(t, prefix).Ok?
    requires forall t, dir :: env.cleanup(t, dir).Pass?
    requires info.Some? && (info.value.loaderType == Fabric ==> mc.Some?)
    ensures AppInstallLoaderSpec(env, trace, info, mc).0.Pass?
  {
  }

  /** An exception does stop it: a temporary folder that cannot be made, or
      one that cannot be removed after the first attempt. */
  lemma AppLoaderExceptionsEscape(env: Env, trace: seq<Effect>, info: ModpackInfo, mc: Path)
    requires info.loaderType != NoLoader
    ensures env.createTemp(trace, TempPrefix(LoaderName(info.loaderType))).Err? ==>
      AppInstallLoaderSpec(env, trace, Some(info), Some(mc)) == (Fail(env.createTemp(trace, TempPrefix(LoaderName(info.loaderType))).error),
                                                                  trace + [CreateTemp(TempPrefix(LoaderName(info.loaderType)))])
  {
  }

  /** The name each installer is run under. */
  function LoaderName(t: LoaderType): string
  {
    match t
    case Forge => "Forge"
    case NeoForge => "NeoForge"
    case Fabric => "Fabric"
    case Quilt => "Quilt"
    case NoLoader => ""
  }

  // ---------------------------------------------------------------------
  // Extracting, cleaning, downloading

  /** `App.cleanModsFolder`: nothing without a Minecraft folder; otherwise
      the same effect as the service's cleaning. */
  function AppCleanSpec(nodes: Nodes, locked: set<Path>, mc: Option<Path>): (Outcome, Nodes)
  {
    if mc.None? then (Pass, nodes) else CleanModsFolderSpec(nodes, locked, mc.value)
  }

  /** One included entry in `App.extractIncludedFiles`: `minecraftPath!!`,
      then `createDirectories` on the parent, then the write. */
  function AppExtractEntrySpec(nodes: Nodes, mc: Option<Path>, e: Entry): (Outcome, Nodes)
  {
    match mc
    case None => (Fail(NullMessage), nodes)
    case Some(root) =>
      var target := MS.Target(root, e);
      match Parent(target)
      case None => (Fail(NullPathMessage), nodes)
      case Some(parent) =>
        var (o1, n1) := CreateDirectoriesSpec(nodes, parent);
        if o1.Fail? then (o1, n1)
        else
          var (o2, n2) := OpenForWriteSpec(n1, target);
          if o2.Fail? then (o2, n2) else (Pass, n2[target := File(e.data)])
  }

  function AppExtractFrom(nodes: Nodes, mc: Option<Path>, mrpack: Archive, i: nat): (Outcome, Nodes)
    requires i <= |mrpack.entries|
    decreases |mrpack.entries| - i
  {
    if i == |mrpack.entries| then
      (if mrpack.truncated then Fail(TruncatedMessage) else Pass, nodes)
    else if !MS.Included(mrpack.entries[i]) then
      AppExtractFrom(nodes, mc, mrpack, i + 1)
    else
      var (o, n) := AppExtractEntrySpec(nodes, mc, mrpack.entries[i]);
      if o.Fail? then (o, n) else AppExtractFrom(n, mc, mrpack, i + 1)
  }

  /** `App.extractIncludedFiles`: nothing without a selected file. */
  function AppExtractSpec(nodes: Nodes, mc: Option<Path>, selected: Option<Archive>): (Outcome, Nodes)
  {
    if selected.None? then (Pass, nodes) else AppExtractFrom(nodes, mc, selected.value, 0)
  }

  /** On a well-formed filesystem, creating an existing directory changes
      nothing. */
  lemma CreateExistingDirectory(nodes: Nodes, p: Path)
    requires WellFormed(nodes) && IsDirectory(nodes, p)
    ensures CreateDirectoriesSpec(nodes, p) == (Pass, nodes)
  {
    forall k | 1 <= k <= |p| ensures p[..k] in nodes && nodes[p[..k]].Dir? {
      if k == |p| {
        assert p[..k] == p;
      }
    }
    var added := map q | q in Prefixes(p) :: Dir;
    assert nodes + added == nodes;
  }

  /** One entry: on a well-formed filesystem the older code's direct
      `createDirectories` ends in the same filesystem as the service's
      `ensureDirectoryExists`, and succeeds exactly when it does. */
  lemma AppExtractEntryAgrees(nodes: Nodes, root: Path, e: Entry)
    requires WellFormed(nodes)
    ensures AppExtractEntrySpec(nodes, Some(root), e).1 == MS.ExtractEntrySpec(nodes, root, e).1
    ensures AppExtractEntrySpec(nodes, Some(root), e).0.Pass? == MS.ExtractEntrySpec(nodes, root, e).0.Pass?
  {
    var target := MS.Target(root, e);
    if target != [] {
      var parent := target[..|target| - 1];
      if IsDirectory(nodes, parent) {
        CreateExistingDirectory(nodes, parent);
      } else if Exists(nodes, parent) {
        assert nodes[parent].File?;
        assert BlockedByFile(nodes, parent) by {
          assert parent[..|parent|] == parent;
        }
      }
    }
  }

  /** From position i on, the older extraction agrees with the service's on
      a well-formed filesystem. */
  lemma {:induction false} AppExtractAgreesWithService(nodes: Nodes, root: Path, mrpack: Archive, i: nat)
    requires WellFormed(nodes) && i <= |mrpack.entries|
    ensures AppExtractFrom(nodes, Some(root), mrpack, i).1 == MS.ExtractFrom(nodes, root, mrpack, i).1
    ensures AppExtractFrom(nodes, Some(root), mrpack, i).0.Pass? == MS.ExtractFrom(nodes, root, mrpack, i).0.Pass?
    decreases |mrpack.entries| - i
  {
    if i < |mrpack.entries| {
      var e := mrpack.entries[i];
      if MS.Included(e) {
        AppExtractEntryAgrees(nodes, root, e);
        MS.ExtractEntryKeepsWellFormed(nodes, root, e);
        var (o, n) := MS.ExtractEntrySpec(nodes, root, e);
        if o.Pass? {
          AppExtractAgreesWithService(n, root, mrpack, i + 1);
        }
      } else {
        AppExtractAgreesWithService(nodes, root, mrpack, i + 1);
      }
    }
  }

  /** `App.downloadAndVerifyFile`: the parent folder is created before the
      server is asked; a status other than 200 fails; the body is written.
      A body that breaks off leaves the bytes received so far in the target,
      and the exception ends the call before the hash check. Reading back a
      regular file just written cannot fail in this filesystem, so the hash
      check's failure branch (deleting the file) is never taken, and a hash
      that does not match is accepted. */
  function AppDownloadSpec(nodes: Nodes, mc: Option<Path>, mod: ModFile, fetch: string -> Response): (Outcome, Nodes)
  {
    match mc
    case None => (Fail(NullMessage), nodes)
    case Some(root) =>
      var target := Resolve(root, mod.path);
      match Parent(target)
      case None => (Fail(NullPathMessage), nodes)
      case Some(parent) =>
        var (o1, n1) := CreateDirectoriesSpec(nodes, parent);
        if o1.Fail? then (o1, n1)
        else
          match fetch(mod.downloadUrl)
          case Unreachable(e) => (Fail(e), n1)
          case Response(status, body) =>
            if status != HttpOk then (Fail(DownloadErrorMessage(mod.downloadUrl, status)), n1)
            else
              var (o2, n2) := OpenForWriteSpec(n1, target);
              if o2.Fail? then (o2, n2) else (Pass, n2[target := File(body)])
          case Broken(received, e) =>
            var (o2, n2) := OpenForWriteSpec(n1, target);
            if o2.Fail? then (o2, n2) else (Fail(e), n2[target := File(received)])
  }

  /** The hash check the older code runs after writing succeeds, so the
      expected hash has no influence on what a download does. */
  lemma AppHashCheckNeverFails(nodes: Nodes, root: Path, mod: ModFile, fetch: string -> Response, sha1: seq<byte> -> seq<byte>, other: string)
    ensures var (o, after) := AppDownloadSpec(nodes, Some(root), mod, fetch);
      o.Pass? ==>
        && VerifyFileHashSpec(after, Resolve(root, mod.path), mod.sha1, sha1).Ok?
        && after[Resolve(root, mod.path)] == File(fetch(mod.downloadUrl).body)
    ensures AppDownloadSpec(nodes, Some(root), mod.(sha1 := other), fetch) == AppDownloadSpec(nodes, Some(root), mod, fetch)
  {
  }

  /** A body that breaks off makes the download fail and, once the target
      was opened, leaves the bytes received at the target. */
  lemma AppBrokenDownloadIsKept(nodes: Nodes, root: Path, mod: ModFile, fetch: string -> Response)
    requires fetch(mod.downloadUrl).Broken?
    ensures var target := Resolve(root, mod.path);
      var (o, after) := AppDownloadSpec(nodes, Some(root), mod, fetch);
      && o.Fail?
      && (target != [] && CreateDirectoriesSpec(nodes, target[..|target| - 1]).0.Pass?
          && OpenForWriteSpec(CreateDirectoriesSpec(nodes, target[..|target| - 1]).1, target).0.Pass? ==>
            target in after && after[target] == File(fetch(mod.downloadUrl).received))
  {
  }

  /** The share of the mods that have started. */
  function Share(started: nat, total: nat): real
    requires total > 0
  {
    started as real / total as real
  }

  /** `App.downloadAndInstallMods` from the i-th mod on: the progress is the
      share of mods started; the first failure ends the loop. */
  function AppDownloadModsFrom(nodes: Nodes, mc: Option<Path>, mods: seq<ModFile>, i: nat, progress: real, fetch: string -> Response)
    : (Outcome, Nodes, real)
    requires i <= |mods|
    decreases |mods| - i
  {
    if i == |mods| then (Pass, nodes, progress)
    else
      var p := Share(i + 1, |mods|);
      var (o, n) := AppDownloadSpec(nodes, mc, mods[i], fetch);
      if o.Fail? then (o, n, p) else AppDownloadModsFrom(n, mc, mods, i + 1, p, fetch)
  }

  /** `App.downloadAndInstallMods`: fails without an index and without a
      `files` array; otherwise downloads the mods with downloads, in
      order. */
  function AppDownloadModsSpec(nodes: Nodes, mc: Option<Path>, index: Option<Json>, progress: real, fetch: string -> Response)
    : (Outcome, Nodes, real)
  {
    if index.None? then (Fail(NoIndexMessage), nodes, progress)
    else if !IsArray(Field(index.value, "files")) then (Fail(NoFilesMessage), nodes, progress)
    else AppDownloadModsFrom(nodes, mc, MS.ParseModFilesSpec(index.value), 0, progress, fetch)
  }

  /** Unlike the service's reading, an index whose `files` is not an array
      is an error here, with nothing written; an array without any
      downloadable entry succeeds with nothing written. */
  lemma AppRequiresFilesArray(nodes: Nodes, mc: Option<Path>, index: Json, progress: real, fetch: string -> Response)
    ensures !IsArray(Field(index, "files")) ==>
      AppDownloadModsSpec(nodes, mc, Some(index), progress, fetch) == (Fail(NoFilesMessage), nodes, progress)
      && MS.ParseModFilesSpec(index) == []
    ensures IsArray(Field(index, "files")) && MS.ParseModFilesSpec(index) == [] ==>
      AppDownloadModsSpec(nodes, mc, Some(index), progress, fetch) == (Pass, nodes, progress)
  {
  }

  /** Once every mod has started the share is 1. */
  lemma AllStarted(total: nat)
    requires total > 0
    ensures Share(total, total) == 1.0
  {
  }

  /** A successful run over at least one mod leaves the progress at 1 (a
      run without a Minecraft folder fails at its first mod). */
  lemma {:induction false} AppDownloadFillsProgress(nodes: Nodes, root: Path, mods: seq<ModFile>, i: nat, progress: real,
                                                    fetch: string -> Response)
    requires i < |mods|
    requires AppDownloadModsFrom(nodes, Some(root), mods, i, progress, fetch).0.Pass?
    ensures AppDownloadModsFrom(nodes, Some(root), mods, i, progress, fetch).2 == 1.0
    decreases |mods| - i
  {
    var p := Share(i + 1, |mods|);
    var step := AppDownloadSpec(nodes, Some(root), mods[i], fetch);
    if i + 1 == |mods| {
      AllStarted(|mods|);
    } else {
      AppDownloadFillsProgress(step.1, root, mods, i + 1, p, fetch);
    }
  }

  // ---------------------------------------------------------------------
  // The install

  /** What one install leaves behind. */
  datatype Attempt = Attempt(outcome: Outcome, nodes: Nodes, trace: seq<Effect>, progress: real)

  /** `App.installModpack`'s `runCatching` block: loader, clean, extract,
      download, each only after the one before it succeeded. */
  function AppInstallSpec(nodes: Nodes, locked: set<Path>, env: Env, trace: seq<Effect>, mc: Option<Path>, info: Option<ModpackInfo>,
                          selected: Option<Archive>, index: Option<Json>, fetch: string -> Response): Attempt
  {
    var (o1, t) := AppInstallLoaderSpec(env, trace, info, mc);
    if o1.Fail? then Attempt(o1, nodes, t, 0.0)
    else
      var (o2, n2) := AppCleanSpec(nodes, locked, mc);
      if o2.Fail? then Attempt(o2, n2, t, 0.0)
      else
        var (o3, n3) := AppExtractSpec(n2, mc, selected);
        if o3.Fail? then Attempt(o3, n3, t, 0.0)
        else
          var (o4, n4, p) := AppDownloadModsSpec(n3, mc, index, 0.0, fetch);
          Attempt(o4, n4, t, p)
  }

  /** The steps run in order and the first failure ends the install: a
      failed loader step writes nothing, a failed cleaning extracts nothing,
      a failed extraction downloads nothing; the installers run before
      anything else and nothing after them adds to the machine's record. */
  lemma AppInstallStepOrder(nodes: Nodes, locked: set<Path>, env: Env, trace: seq<Effect>, mc: Option<Path>, info: Option<ModpackInfo>,
                            selected: Option<Archive>, index: Option<Json>, fetch: string -> Response)
    ensures var run := AppInstallSpec(nodes, locked, env, trace, mc, info, selected, index, fetch);
      var loader := AppInstallLoaderSpec(env, trace, info, mc);
      var clean := AppCleanSpec(nodes, locked, mc);
      var extract := AppExtractSpec(clean.1, mc, selected);
      && run.trace == loader.1
      && (loader.0.Fail? ==> run.outcome == loader.0 && run.nodes == nodes)
      && (loader.0.Pass? && clean.0.Fail? ==> run.outcome == clean.0 && run.nodes == clean.1)
      && (loader.0.Pass? && clean.0.Pass? && extract.0.Fail? ==> run.outcome == extract.0 && run.nodes == extract.1)
      && (run.outcome.Pass? ==> loader.0.Pass? && clean.0.Pass? && extract.0.Pass? && index.Some? && IsArray(Field(index.value, "files")))
  {
  }

  /** One included entry of `App.extractIncludedFiles`, copied in 1024-byte reads. */
  method ExtractEntry(fs: FileSystem, mc: Option<Path>, e: Entry) returns (o: Outcome)
    modifies fs`nodes
    ensures (o, fs.nodes) == AppExtractEntrySpec(old(fs.nodes), mc, e)
  {
    if mc.None? {
      return Fail(NullMessage);
    }
    var target := MS.Target(mc.value, e);
    var parent := Parent(target);
    if parent.None? {
      return Fail(NullPathMessage);
    }
    o := fs.CreateDirectories(parent.value);
    if o.Fail? {
      return;
    }
    o := fs.OpenForWrite(target);
    if o.Fail? {
      return;
    }
    CopyInChunks(fs, target, e.data, MS.ZipBufferSize);
  }

  /** The loop of `App.extractIncludedFiles` over the archive's entries. */
  method ExtractEntries(fs: FileSystem, mc: Option<Path>, mrpack: Archive) returns (o: Outcome)
    modifies fs`nodes
    ensures (o, fs.nodes) == AppExtractFrom(old(fs.nodes), mc, mrpack, 0)
  {
    var i := 0;
    while i < |mrpack.entries|
      invariant 0 <= i <= |mrpack.entries|
      invariant AppExtractFrom(fs.nodes, mc, mrpack, i) == AppExtractFrom(old(fs.nodes), mc, mrpack, 0)
    {
      var entry := mrpack.entries[i];
      if MS.Included(entry) {
        var step := ExtractEntry(fs, mc, entry);
        if step.Fail? {
          return step;
        }
      }
      i := i + 1;
    }
    o := if mrpack.truncated then Fail(TruncatedMessage) else Pass;
  }

  /** Without a modpack description the install fails at once and changes
      nothing. */
  lemma AppInstallNeedsInfo(nodes: Nodes, locked: set<Path>, env: Env, trace: seq<Effect>, mc: Option<Path>,
                            selected: Option<Archive>, index: Option<Json>, fetch: string -> Response)
    ensures AppInstallSpec(nodes, locked, env, trace, mc, None, selected, index, fetch) == Attempt(Fail(NoInfoMessage), nodes, trace, 0.0)
  {
  }

  // ---------------------------------------------------------------------
  // The class

  class App {
    var selectedMrpackFile: Option<Archive>
    var minecraftPath: Option<Path>
    var modpackIndex: Option<Json>
    var modpackInfo: Option<ModpackInfo>
    var statusMessage: string
    var isInstalling: bool
    var installProgress: real

    /** The application starts with the detected Minecraft folder, or with
        a warning when there is none. */
    constructor (detected: Option<Path>)
      ensures minecraftPath == detected
      ensures selectedMrpackFile.None? && modpackIndex.None? && modpackInfo.None?
      ensures !isInstalling && installProgress == 0.0
      ensures statusMessage == if detected.Some? then "" else NoDetectionMessage
    {
      selectedMrpackFile := None;
      minecraftPath := detected;
      modpackIndex := None;
      modpackInfo := None;
      statusMessage := if detected.Some? then "" else NoDetectionMessage;
      isInstalling := false;
      installProgress := 0.0;
    }

    /** `selectMrpackFile`: a chosen file is kept and read; the result of
        the reading is not looked at. */
    method SelectMrpackFile(chosen: Option<Archive>, parse: seq<byte> -> Result<Json>)
      modifies this`selectedMrpackFile, this`modpackIndex, this`modpackInfo
      ensures selectedMrpackFile == if chosen.Some? then chosen else old(selectedMrpackFile)
      ensures chosen.Some? && AppLoadSpec(chosen.value, parse).Ok? ==>
        modpackInfo == Some(AppLoadSpec(chosen.value, parse).value.0) && modpackIndex == Some(AppLoadSpec(chosen.value, parse).value.1)
      ensures chosen.None? || AppLoadSpec(chosen.value, parse).Err? ==>
        modpackInfo == old(modpackInfo) && modpackIndex == old(modpackIndex)
    {
      if chosen.Some? {
        selectedMrpackFile := chosen;
        var _ := LoadModpackInfo(parse);
      }
    }

    /** `selectMinecraftPath`: a chosen folder replaces the current one. */
    method SelectMinecraftPath(chosen: Option<Path>)
      modifies this`minecraftPath
      ensures minecraftPath == if chosen.Some? then chosen else old(minecraftPath)
    {
      if chosen.Some? {
        minecraftPath := chosen;
      }
    }

    /** `App.loadModpackInfo`: fails without a selected file; on success the
        index and the description are kept; a failure keeps the old ones. */
    method LoadModpackInfo(parse: seq<byte> -> Result<Json>) returns (r: Result<ModpackInfo>)
      modifies this`modpackIndex, this`modpackInfo
      ensures selectedMrpackFile.None? ==>
        r == Err(NoFileSelectedMessage) && modpackIndex == old(modpackIndex) && modpackInfo == old(modpackInfo)
      ensures selectedMrpackFile.Some? ==>
        match AppLoadSpec(selectedMrpackFile.value, parse)
        case Ok((info, root)) => r == Ok(info) && modpackIndex == Some(root) && modpackInfo == Some(info)
        case Err(e) => r == Err(e) && modpackIndex == old(modpackIndex) && modpackInfo == old(modpackInfo)
    {
      if selectedMrpackFile.None? {
        return Err(NoFileSelectedMessage);
      }
      var mrpack := selectedMrpackFile.value;
      var i := 0;
      while i < |mrpack.entries|
        invariant 0 <= i <= |mrpack.entries|
        invariant forall j :: 0 <= j < i ==> mrpack.entries[j].name != MS.IndexName
      {
        var entry := mrpack.entries[i];
        if entry.name == MS.IndexName {
          var content := MS.ReadZipEntry(entry);
          var parsed := parse(content);
          if parsed.Err? {
            return Err(parsed.error);
          }
          modpackIndex := Some(parsed.value);
          var info := MS.ParseModpackInfo(parsed.value, AppDefaults);
          modpackInfo := Some(info);
          return Ok(info);
        }
        i := i + 1;
      }
      if mrpack.truncated {
        return Err(TruncatedMessage);
      }
      return Err(AppIndexNotFound);
    }

    /** `App.installWithInstaller`; `args` is None when `minecraftPath!!`
        throws. */
    method InstallWithInstaller(m: Machine, name: string, url: string, args: Option<seq<string>>) returns (c: Completion)
      modifies m`trace
      ensures (c, m.trace) == AppInstallerSpec(m.env, old(m.trace), name, url, args)
    {
      var temp := m.CreateTempDirectory(TempPrefix(name));
      if temp.Err? {
        return Threw(temp.error);
      }
      var installer := InstallerFile(temp.value, name);
      var result: Outcome;
      var downloaded := m.DownloadFile(url, installer);
      if downloaded.Fail? {
        result := downloaded;
      } else if args.None? {
        result := Fail(NullMessage);
      } else {
        var exitCode := m.RunProcess(InstallerCommand(installer, args.value));
        if exitCode.Err? {
          result := Fail(exitCode.error);
        } else if exitCode.value != 0 {
          result := Fail(AppExitCodeMessage(name, exitCode.value));
        } else {
          result := Pass;
        }
      }
      var removed := m.RemoveTempDirectory(temp.value);
      if removed.Fail? {
        return Threw(removed.error);
      }
      c := Returned(result);
    }

    /** `App.installLoader`, with `installForge`, `installNeoForge`,
        `installQuilt` and `installFabric`. Returns a failure exactly when
        an exception leaves it. */
    method InstallLoader(m: Machine) returns (o: Outcome)
      modifies m`trace
      ensures (o, m.trace) == AppInstallLoaderSpec(m.env, old(m.trace), modpackInfo, minecraftPath)
    {
      if modpackInfo.None? {
        return Fail(NoInfoMessage);
      }
      var info := modpackInfo.value;
      match info.loaderType {
        case NoLoader => o := Pass;
        case Forge =>
          var c := InstallWithInstaller(m, "Forge", ForgeUrl(info.minecraftVersion, info.loaderVersion),
                                        if minecraftPath.Some? then Some(ClientArgs(minecraftPath.value)) else None);
          o := if c.Threw? then Fail(c.error) else Pass;
        case NeoForge =>
          var c := InstallWithInstaller(m, "NeoForge", NeoForgeUrl(info.loaderVersion),
                                        if minecraftPath.Some? then Some(ClientArgs(minecraftPath.value)) else None);
          o := if c.Threw? then Fail(c.error) else Pass;
        case Quilt =>
          var c := InstallWithInstaller(m, "Quilt", QuiltUrl,
                                        if minecraftPath.Some? then Some(QuiltArgs(info.minecraftVersion, info.loaderVersion, minecraftPath.value)) else None);
          o := if c.Threw? then Fail(c.error) else Pass;
        case Fabric =>
          o := InstallFabric(m, info.minecraftVersion, info.loaderVersion);
      }
    }

    /** `App.installFabric`, whose result the caller drops: only the
        failure of `minecraftPath!!` or an exception from the first attempt
        is reported. */
    method InstallFabric(m: Machine, mcVersion: string, fabricVersion: string) returns (o: Outcome)
      modifies m`trace
      ensures (o, m.trace) == AppInstallFabricSpec(m.env, old(m.trace), mcVersion, fabricVersion, minecraftPath)
    {
      if minecraftPath.None? {
        return Fail(NullMessage);
      }
      var root := minecraftPath.value;
      var first := InstallWithInstaller(m, "Fabric", FabricUrl, Some(FabricArgs(mcVersion, fabricVersion, LauncherDir(root))));
      if first.Threw? {
        return Fail(first.error);
      }
      if first.result.Fail? {
        var _ := InstallWithInstaller(m, "Fabric", FabricUrl, Some(FabricArgs(mcVersion, fabricVersion, root)));
      }
      o := Pass;
    }

    /** `App.cleanModsFolder`. */
    method CleanModsFolderStep(fs: FileSystem) returns (o: Outcome)
      modifies fs`nodes
      ensures (o, fs.nodes) == AppCleanSpec(old(fs.nodes), fs.locked, minecraftPath)
    {
      if minecraftPath.None? {
        return Pass;
      }
      o := CleanModsFolder(fs, minecraftPath.value);
    }

    /** `App.extractIncludedFiles`. */
    method ExtractIncludedFiles(fs: FileSystem) returns (o: Outcome)
      modifies fs`nodes
      ensures (o, fs.nodes) == AppExtractSpec(old(fs.nodes), minecraftPath, selectedMrpackFile)
    {
      if selectedMrpackFile.None? {
        return Pass;
      }
      o := ExtractEntries(fs, minecraftPath, selectedMrpackFile.value);
    }

    /** `App.downloadAndVerifyFile`, copying the body in 8192-byte reads. */
    method DownloadAndVerifyFile(fs: FileSystem, mod: ModFile, fetch: string -> Response, sha1: seq<byte> -> seq<byte>) returns (o: Outcome)
      modifies fs`nodes
      ensures (o, fs.nodes) == AppDownloadSpec(old(fs.nodes), minecraftPath, mod, fetch)
    {
      if minecraftPath.None? {
        return Fail(NullMessage);
      }
      var target := Resolve(minecraftPath.value, mod.path);
      var parent := Parent(target);
      if parent.None? {
        return Fail(NullPathMessage);
      }
      o := fs.CreateDirectories(parent.value);
      if o.Fail? {
        return;
      }
      var response := fetch(mod.downloadUrl);
      if response.Unreachable? {
        return Fail(response.error);
      }
      if response.Response? && response.status != HttpOk {
        return Fail(DownloadErrorMessage(mod.downloadUrl, response.status));
      }
      o := fs.OpenForWrite(target);
      if o.Fail? {
        return;
      }
      CopyInChunks(fs, target, Received(response), DownloadBufferSize);
      if response.Broken? {
        return Fail(response.error);
      }
      var verified := VerifyFileHash(fs, target, mod.sha1, sha1);
      assert verified.Ok?;
    }

    /** `App.downloadAndInstallMods`. */
    method DownloadAndInstallMods(fs: FileSystem, fetch: string -> Response, sha1: seq<byte> -> seq<byte>) returns (o: Outcome)
      modifies fs`nodes, this`installProgress
      ensures (o, fs.nodes, installProgress) == AppDownloadModsSpec(old(fs.nodes), minecraftPath, modpackIndex, old(installProgress), fetch)
    {
      if modpackIndex.None? {
        return Fail(NoIndexMessage);
      }
      var index := modpackIndex.value;
      if !IsArray(Field(index, "files")) {
        return Fail(NoFilesMessage);
      }
      var mods := MS.ParseModFiles(index);
      o := DownloadMods(fs, mods, fetch, sha1);
    }

    /** The loop of `App.downloadAndInstallMods` over the listed mods. */
    method DownloadMods(fs: FileSystem, mods: seq<ModFile>, fetch: string -> Response, sha1: seq<byte> -> seq<byte>) returns (o: Outcome)
      modifies fs`nodes, this`installProgress
      ensures (o, fs.nodes, installProgress) == AppDownloadModsFrom(old(fs.nodes), minecraftPath, mods, 0, old(installProgress), fetch)
    {
      var i := 0;
      while i < |mods|
        invariant 0 <= i <= |mods|
        invariant AppDownloadModsFrom(fs.nodes, minecraftPath, mods, i, installProgress, fetch)
          == AppDownloadModsFrom(old(fs.nodes), minecraftPath, mods, 0, old(installProgress), fetch)
      {
        installProgress := Share(i + 1, |mods|);
        o := DownloadAndVerifyFile(fs, mods[i], fetch, sha1);
        if o.Fail? {
          return;
        }
        i := i + 1;
      }
      o := Pass;
    }

    /** `App.installModpack`: no guards; the steps of `AppInstallSpec`, the
        outcome in the status, and no install running at the end. */
    method InstallModpack(fs: FileSystem, m: Machine, fetch: string -> Response, sha1: seq<byte> -> seq<byte>) returns (o: Outcome)
      modifies fs`nodes, m`trace, this`isInstalling, this`installProgress, this`statusMessage
      ensures var run := AppInstallSpec(old(fs.nodes), fs.locked, m.env, old(m.trace), minecraftPath, modpackInfo,
                                        selectedMrpackFile, modpackIndex, fetch);
        && o == run.outcome && fs.nodes == run.nodes && m.trace == run.trace && installProgress == run.progress
        && !isInstalling
        && statusMessage == (if o.Pass? then InstalledMessage else InstallErrorMessage(o.error))
    {
      isInstalling := true;
      installProgress := 0.0;
      o := InstallLoader(m);
      if o.Pass? {
        o := CleanModsFolderStep(fs);
        if o.Pass? {
          o := ExtractIncludedFiles(fs);
          if o.Pass? {
            o := DownloadAndInstallMods(fs, fetch, sha1);
          }
        }
      }
      if o.Pass? {
        statusMessage := InstalledMessage;
      } else {
        statusMessage := InstallErrorMessage(o.error);
      }
      isInstalling := false;
    }

    /** `App.clear`: forgets the modpack and the status; the Minecraft folder
        and the installing flag stay. */
    method Clear()
      modifies this`selectedMrpackFile, this`modpackIndex, this`modpackInfo, this`statusMessage, this`installProgress
      ensures selectedMrpackFile.None? && modpackIndex.None? && modpackInfo.None?
      ensures statusMessage == "" && installProgress == 0.0
    {
      selectedMrpackFile := None;
      modpackIndex := None;
      modpackInfo := None;
      statusMessage := "";
      installProgress := 0.0;
    }
  }
}
