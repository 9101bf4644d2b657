/** `ModpackInstallerViewModel`: the state behind the installer's screen and
    the install pipeline it runs. The server's answers, the downloaded
    modpack archive and the user's choices in the file dialogs arrive as
    parameters. */
module ViewModel {
  import opened Wrappers
  import opened Text
  import opened Json
  import opened Zip
  import opened Models
  import opened Fs
  import opened FileUtils
  import opened FileService
  import opened DownloadService
  import opened LoaderInstallerService
  import MS = ModpackService

  const NoDetectionMessage := "⚠️ No se pudo detectar la carpeta .minecraft automáticamente"
  const LoadingMessage := "Cargando información del modpack..."
  const NotAvailableMessage := "No hay modpack disponible en el servidor"
  const LoadedMessage := "✅ Modpack cargado correctamente"
  const InstalledMessage := "✅ ¡Modpack instalado correctamente!"
  const NoPathMessage := "No minecraft path selected"
  const NoInfoMessage := "No modpack info loaded"
  const NoFileMessage := "No mrpack file selected"
  const NoIndexMessage := "No modpack index loaded"

  /** The message of the exception `!!` raises on a null value. */
  const NullMessage := "null"

  function AvailableMessage(name: string): string
  {
    "Modpack disponible: " + name
  }

  function ConnectionErrorMessage(error: string): string
  {
    "Error al conectar con el servidor: " + error
  }

  function LoadErrorMessage(error: string): string
  {
    "❌ Error cargando modpack: " + error
  }

  function InstallErrorMessage(error: string): string
  {
    "❌ Error durante la instalación: " + error
  }

  // ---------------------------------------------------------------------
  // Loader names offered by the server

  /** `determineLoaderType`: substring tests, ignoring case, in a fixed
      order. */
  function DetermineLoaderType(loader: string): LoaderType
  {
    if ContainsIgnoreCase(loader, "forge") && !ContainsIgnoreCase(loader, "neo") then Forge
    else if ContainsIgnoreCase(loader, "neoforge") then NeoForge
    else if ContainsIgnoreCase(loader, "fabric") then Fabric
    else if ContainsIgnoreCase(loader, "quilt") then Quilt
    else NoLoader
  }

  /** A name containing "neoforge" contains both "neo" and "forge". */
  lemma NeoForgeContainsBoth(s: string)
    requires ContainsIgnoreCase(s, "neoforge")
    ensures ContainsIgnoreCase(s, "neo") && ContainsIgnoreCase(s, "forge")
  {
    ContainsPrefixOfNeedle(s, "neoforge", 3);
    assert "neoforge"[..3] == "neo";
    var at: nat :| at <= |s| && MatchesAtIgnoreCase(s, at, "neoforge");
    assert MatchesAtIgnoreCase(s, at + 3, "forge") by {
      forall j | 0 <= j < 5 ensures CharMatchesIgnoreCase(s[at + 3 + j], "forge"[j]) {
        assert "forge"[j] == "neoforge"[3 + j];
      }
    }
  }

  /** The classification, case by case: Forge exactly for names with "forge"
      and without "neo"; NeoForge exactly for names with "neoforge"; Fabric
      and Quilt only when no earlier name matched; nothing otherwise. */
  lemma LoaderTypeClassification(loader: string)
    ensures var r := DetermineLoaderType(loader);
      && (r == Forge <==> ContainsIgnoreCase(loader, "forge") && !ContainsIgnoreCase(loader, "neo"))
      && (r == NeoForge <==> ContainsIgnoreCase(loader, "neoforge"))
      && (r == Fabric <==> !ContainsIgnoreCase(loader, "neoforge")
                           && !(ContainsIgnoreCase(loader, "forge") && !ContainsIgnoreCase(loader, "neo"))
                           && ContainsIgnoreCase(loader, "fabric"))
      && (r == NoLoader <==> !(ContainsIgnoreCase(loader, "forge") && !ContainsIgnoreCase(loader, "neo"))
                             && !ContainsIgnoreCase(loader, "neoforge") && !ContainsIgnoreCase(loader, "fabric")
                             && !ContainsIgnoreCase(loader, "quilt"))
  {
    if ContainsIgnoreCase(loader, "neoforge") {
      NeoForgeContainsBoth(loader);
    }
  }

  /** Upper-casing a loader name does not change its classification. */
  lemma LoaderTypeIgnoresCase(loader: string)
    ensures DetermineLoaderType(UpperString(loader)) == DetermineLoaderType(loader)
  {
    UpperCaseMatchesAlike(loader, "forge");
    UpperCaseMatchesAlike(loader, "neo");
    UpperCaseMatchesAlike(loader, "neoforge");
    UpperCaseMatchesAlike(loader, "fabric");
    UpperCaseMatchesAlike(loader, "quilt");
  }

  /** The modpack description built from the server's answer. */
  function InfoFromApi(response: ApiResponse): ModpackInfo
  {
    var api := response.modpackInfo;
    ModpackInfo(
      name := api.name,
      version := api.versionId,
      summary := api.summary,
      minecraftVersion := api.minecraftVersion,
      loader := api.loader + " " + api.loaderVersion,
      loaderVersion := api.loaderVersion,
      loaderType := DetermineLoaderType(api.loader),
      modCount := api.modCount,
      totalSize := response.fileSize)
  }

  // ---------------------------------------------------------------------
  // The install pipeline, as a function of the state it starts from

  /** What one run of the pipeline leaves behind: its outcome, the
      filesystem, the loader installers' effects, the progress bar and the
      modpack index. */
  datatype Installation = Installation(outcome: Outcome, nodes: Nodes, trace: seq<Effect>, progress: real, index: Option<Json>)

  function BaseProgress(mode: InstallMode): real
  {
    if mode == ApiDownload then 0.5 else 0.3
  }

  function ProgressRange(mode: InstallMode): real
  {
    if mode == ApiDownload then 0.5 else 0.7
  }

  /** The progress shown while the fileNum-th of total mods downloads. */
  function ModProgress(mode: InstallMode, fileNum: nat, total: nat): real
    requires total > 0
  {
    BaseProgress(mode) + ProgressRange(mode) * (fileNum as real / total as real)
  }

  /** `downloadAndInstallMods` from the i-th mod on: each mod sets the
      progress and is downloaded and checked; the first failure ends the
      loop. */
  function DownloadModsFrom(nodes: Nodes, locked: set<Path>, mc: Path, mods: seq<ModFile>, i: nat, mode: InstallMode,
                            progress: real, fetch: string -> Response, sha1: seq<byte> -> seq<byte>): (Outcome, Nodes, real)
    requires i <= |mods|
    decreases |mods| - i
  {
    if i == |mods| then (Pass, nodes, progress)
    else
      var p := ModProgress(mode, i + 1, |mods|);
      var (o, n) := DownloadAndVerifySpec(nodes, locked, mc, mods[i], fetch, sha1);
      if o.Fail? then (o, n, p) else DownloadModsFrom(n, locked, mc, mods, i + 1, mode, p, fetch, sha1)
  }

  /** Extract the bundled files, clean the mods folder, download the mods;
      `before` is the progress shown up to the extraction. */
  function UnpackSpec(nodes: Nodes, locked: set<Path>, mc: Path, mode: InstallMode, mrpack: Archive, index: Json, before: real,
                      fetch: string -> Response, sha1: seq<byte> -> seq<byte>): (Outcome, Nodes, real)
  {
    var (o1, n1) := MS.ExtractFrom(nodes, mc, mrpack, 0);
    if o1.Fail? then (o1, n1, before)
    else
      var (o2, n2) := CleanModsFolderSpec(n1, locked, mc);
      if o2.Fail? then (o2, n2, BaseProgress(mode))
      else DownloadModsFrom(n2, locked, mc, MS.ParseModFilesSpec(index), 0, mode, BaseProgress(mode), fetch, sha1)
  }

  /** The part of the pipeline after the loader: in API mode the offered
      modpack (downloaded as `pack`) is loaded for its index, which the
      view-model keeps; in local mode the selected file and its index are
      used. */
  function PackSpec(nodes: Nodes, locked: set<Path>, mc: Path, mode: InstallMode, apiResponse: Option<ApiResponse>,
                    selected: Option<Archive>, index: Option<Json>, pack: Result<Archive>, parse: seq<byte> -> Result<Json>,
                    fetch: string -> Response, sha1: seq<byte> -> seq<byte>): (Outcome, Nodes, real, Option<Json>)
  {
    match mode
    case ApiDownload =>
      if apiResponse.None? then (Fail(NullMessage), nodes, 0.2, index)
      else if !apiResponse.value.available then (Fail(NotAvailableMessage), nodes, 0.2, index)
      else if pack.Err? then (Fail(pack.error), nodes, 0.2, index)
      else
        (match MS.LoadModpackInfoSpec(pack.value, parse)
         case Err(e) => (Fail(e), nodes, 0.4, index)
         case Ok((_, loaded)) =>
           var (o, n, p) := UnpackSpec(nodes, locked, mc, mode, pack.value, loaded, 0.4, fetch, sha1);
           (o, n, p, Some(loaded)))
    case LocalFile =>
      if selected.None? then (Fail(NoFileMessage), nodes, 0.2, index)
      else if index.None? then (Fail(NoIndexMessage), nodes, 0.2, index)
      else
        var (o, n, p) := UnpackSpec(nodes, locked, mc, mode, selected.value, index.value, 0.2, fetch, sha1);
        (o, n, p, index)
  }

  /** `installModpack` once both guards have passed: the required folders,
      then the loader, then the modpack; each step runs only when the one
      before it succeeded. */
  function InstallSpec(nodes: Nodes, locked: set<Path>, env: Env, trace: seq<Effect>, mc: Path, info: ModpackInfo,
                       mode: InstallMode, apiResponse: Option<ApiResponse>, selected: Option<Archive>, index: Option<Json>,
                       pack: Result<Archive>, parse: seq<byte> -> Result<Json>,
                       fetch: string -> Response, sha1: seq<byte> -> seq<byte>): Installation
  {
    var ensured := EnsureFrom(nodes, mc, 0);
    if ensured.0.Fail? then Installation(ensured.0, ensured.1, trace, 0.0, index)
    else
      var loader := InstallLoaderSpec(env, trace, info.loaderType, info.minecraftVersion, info.loaderVersion, mc);
      if Caught(loader.0).Fail? then Installation(Caught(loader.0), ensured.1, loader.1, 0.1, index)
      else
        var r := PackSpec(ensured.1, locked, mc, mode, apiResponse, selected, index, pack, parse, fetch, sha1);
        Installation(r.0, r.1, loader.1, r.2, r.3)
  }

  /** A modpack offered by the server is installed with the loader its
      answer names: the type classified from the loader name, with the
      server's loader and Minecraft versions, never the display text. Any
      description that agrees on those three gives the same install, so its
      name, version, summary, display, mod count and size play no part. */
  lemma ApiInfoDrivesInstall(nodes: Nodes, locked: set<Path>, env: Env, trace: seq<Effect>, mc: Path, response: ApiResponse,
                             mode: InstallMode, selected: Option<Archive>, index: Option<Json>, pack: Result<Archive>,
                             parse: seq<byte> -> Result<Json>, fetch: string -> Response, sha1: seq<byte> -> seq<byte>, other: ModpackInfo)
    requires other.loaderType == DetermineLoaderType(response.modpackInfo.loader)
    requires other.loaderVersion == response.modpackInfo.loaderVersion
    requires other.minecraftVersion == response.modpackInfo.minecraftVersion
    ensures InstallSpec(nodes, locked, env, trace, mc, other, mode, Some(response), selected, index, pack, parse, fetch, sha1)
         == InstallSpec(nodes, locked, env, trace, mc, InfoFromApi(response), mode, Some(response), selected, index, pack, parse, fetch, sha1)
    ensures var api := response.modpackInfo;
      var run := InstallSpec(nodes, locked, env, trace, mc, InfoFromApi(response), mode, Some(response), selected, index, pack, parse, fetch, sha1);
      EnsureFrom(nodes, mc, 0).0.Pass? ==>
        run.trace == InstallLoaderSpec(env, trace, DetermineLoaderType(api.loader), api.minecraftVersion, api.loaderVersion, mc).1
  {
  }

  // ---------------------------------------------------------------------
  // The view-model

  class ModpackInstallerViewModel {
    var selectedMrpackFile: Option<Archive>
    var minecraftPath: Option<Path>
    var modpackIndex: Option<Json>
    var modpackInfo: Option<ModpackInfo>
    var statusMessage: string
    var isInstalling: bool
    var installProgress: real
    var installMode: InstallMode
    var apiResponse: Option<ApiResponse>
    var isLoadingModpackInfo: bool

    /** The view-model starts with the folder the launcher detection finds,
        if any, and at once asks the server for its modpack, whose loading
        message replaces the detection warning. */
    constructor (detected: Option<Path>)
      ensures minecraftPath == detected
      ensures selectedMrpackFile.None? && modpackIndex.None? && modpackInfo.None? && apiResponse.None?
      ensures !isInstalling && installProgress == 0.0 && installMode == ApiDownload
      ensures isLoadingModpackInfo && statusMessage == LoadingMessage
    {
      selectedMrpackFile := None;
      minecraftPath := None;
      modpackIndex := None;
      modpackInfo := None;
      statusMessage := "";
      isInstalling := false;
      installProgress := 0.0;
      installMode := ApiDownload;
      apiResponse := None;
      isLoadingModpackInfo := false;
      new;
      DetectMinecraftPath(detected);
      var _ := LoadModpackInfo();
    }

    /** `detectMinecraftPath`: keeps the detected folder, or warns. */
    method DetectMinecraftPath(detected: Option<Path>)
      modifies this`minecraftPath, this`statusMessage
      ensures detected.Some? ==> minecraftPath == detected && statusMessage == old(statusMessage)
      ensures detected.None? ==> minecraftPath == old(minecraftPath) && statusMessage == NoDetectionMessage
    {
      if detected.Some? {
        minecraftPath := detected;
      } else {
        statusMessage := NoDetectionMessage;
      }
    }

    /** `loadModpackInfo`: nothing in local mode or while a request is in
        flight; otherwise marks the request as started. The answer arrives
        later through `OnModpackInfoFetched`. Returns whether a request was
        started. */
    method LoadModpackInfo() returns (launched: bool)
      modifies this`isLoadingModpackInfo, this`statusMessage
      ensures launched <==> installMode == ApiDownload && !old(isLoadingModpackInfo)
      ensures launched ==> isLoadingModpackInfo && statusMessage == LoadingMessage
      ensures !launched ==> isLoadingModpackInfo == old(isLoadingModpackInfo) && statusMessage == old(statusMessage)
    {
      if installMode == LocalFile || isLoadingModpackInfo {
        return false;
      }
      isLoadingModpackInfo := true;
      statusMessage := LoadingMessage;
      return true;
    }

    /** The completion of the request `LoadModpackInfo` starts: an offered
        modpack becomes the modpack description; an answer without one, or
        a failed request, leaves none; the request is over either way. */
    method OnModpackInfoFetched(r: Result<ApiResponse>)
      modifies this`apiResponse, this`modpackInfo, this`statusMessage, this`isLoadingModpackInfo
      ensures !isLoadingModpackInfo
      ensures r.Ok? && r.value.available ==>
        apiResponse == Some(r.value) && modpackInfo == Some(InfoFromApi(r.value))
        && statusMessage == AvailableMessage(r.value.modpackInfo.name)
      ensures r.Ok? && !r.value.available ==>
        apiResponse == Some(r.value) && modpackInfo.None? && statusMessage == NotAvailableMessage
      ensures r.Err? ==> apiResponse.None? && modpackInfo.None? && statusMessage == ConnectionErrorMessage(r.error)
    {
      match r {
        case Ok(response) =>
          apiResponse := Some(response);
          if response.available {
            modpackInfo := Some(InfoFromApi(response));
            statusMessage := AvailableMessage(response.modpackInfo.name);
          } else {
            modpackInfo := None;
            statusMessage := NotAvailableMessage;
          }
        case Err(e) =>
          statusMessage := ConnectionErrorMessage(e);
          apiResponse := None;
          modpackInfo := None;
      }
      isLoadingModpackInfo := false;
    }

    /** `switchInstallMode`: sets the mode, clears, and in API mode asks the
        server again (unless a request is already in flight). */
    method SwitchInstallMode(mode: InstallMode) returns (launched: bool)
      modifies this`installMode, this`selectedMrpackFile, this`apiResponse, this`modpackIndex, this`modpackInfo,
        this`statusMessage, this`installProgress, this`isLoadingModpackInfo
      ensures installMode == mode
      ensures selectedMrpackFile.None? && apiResponse.None? && modpackIndex.None? && modpackInfo.None? && installProgress == 0.0
      ensures launched <==> mode == ApiDownload && !old(isLoadingModpackInfo)
      ensures statusMessage == (if launched then LoadingMessage else "")
      ensures isLoadingModpackInfo == (old(isLoadingModpackInfo) || launched)
    {
      installMode := mode;
      Clear();
      launched := false;
      if mode == ApiDownload {
        launched := LoadModpackInfo();
      }
    }

    /** `selectMrpackFile`: a chosen file is kept and loaded at once. */
    method SelectMrpackFile(chosen: Option<Archive>, parse: seq<byte> -> Result<Json>)
      modifies this`selectedMrpackFile, this`modpackInfo, this`modpackIndex, this`statusMessage
      ensures chosen.None? ==>
        selectedMrpackFile == old(selectedMrpackFile) && modpackInfo == old(modpackInfo)
        && modpackIndex == old(modpackIndex) && statusMessage == old(statusMessage)
      ensures chosen.Some? ==>
        selectedMrpackFile == chosen
        && match MS.LoadModpackInfoSpec(chosen.value, parse)
           case Ok((info, index)) => modpackInfo == Some(info) && modpackIndex == Some(index) && statusMessage == LoadedMessage
           case Err(e) => modpackInfo.None? && modpackIndex.None? && statusMessage == LoadErrorMessage(e)
    {
      if chosen.Some? {
        selectedMrpackFile := chosen;
        LoadLocalModpackInfo(parse);
      }
    }

    /** `loadLocalModpackInfo`: reads the selected file's description and
        index, or reports why it cannot. */
    method LoadLocalModpackInfo(parse: seq<byte> -> Result<Json>)
      modifies this`modpackInfo, this`modpackIndex, this`statusMessage
      ensures selectedMrpackFile.None? ==>
        modpackInfo == old(modpackInfo) && modpackIndex == old(modpackIndex) && statusMessage == old(statusMessage)
      ensures selectedMrpackFile.Some? ==>
        match MS.LoadModpackInfoSpec(selectedMrpackFile.value, parse)
        case Ok((info, index)) => modpackInfo == Some(info) && modpackIndex == Some(index) && statusMessage == LoadedMessage
        case Err(e) => modpackInfo.None? && modpackIndex.None? && statusMessage == LoadErrorMessage(e)
    {
      if selectedMrpackFile.None? {
        return;
      }
      var result := MS.LoadModpackInfo(selectedMrpackFile.value, parse);
      match result {
        case Ok((info, index)) =>
          modpackInfo := Some(info);
          modpackIndex := Some(index);
          statusMessage := LoadedMessage;
        case Err(e) =>
          statusMessage := LoadErrorMessage(e);
          modpackInfo := None;
          modpackIndex := None;
      }
    }

    /** `selectMinecraftPath`: a chosen folder replaces the current one. */
    method SelectMinecraftPath(chosen: Option<Path>)
      modifies this`minecraftPath
      ensures minecraftPath == if chosen.Some? then chosen else old(minecraftPath)
    {
      if chosen.Some? {
        minecraftPath := chosen;
      }
    }

    /** `clear`: forgets the modpack and the status; the Minecraft folder,
        the mode and the installing flag stay. Afterwards there is nothing
        left to clear. */
    method Clear()
      modifies this`selectedMrpackFile, this`apiResponse, this`modpackIndex, this`modpackInfo, this`statusMessage,
        this`installProgress
      ensures selectedMrpackFile.None? && apiResponse.None? && modpackIndex.None? && modpackInfo.None?
      ensures statusMessage == "" && installProgress == 0.0
      ensures !CanClear()
    {
      selectedMrpackFile := None;
      apiResponse := None;
      modpackIndex := None;
      modpackInfo := None;
      statusMessage := "";
      installProgress := 0.0;
    }

    /** `canInstall`: a Minecraft folder that exists, no install running,
        and a modpack to install in the current mode. */
    predicate CanInstall(nodes: Nodes)
      reads this
    {
      && minecraftPath.Some?
      && Exists(nodes, minecraftPath.value)
      && !isInstalling
      && match installMode
         case LocalFile => selectedMrpackFile.Some? && modpackInfo.Some?
         case ApiDownload => apiResponse.Some? && apiResponse.value.available && modpackInfo.Some?
    }

    /** An enabled install button means `installModpack` gets past both of
        its guards, and in API mode past the checks of the server's answer:
        the modpack step then ends with the download's or the archive's own
        error, or does what unpacking the downloaded modpack does. */
    lemma CanInstallPassesGuards(nodes: Nodes, locked: set<Path>, pack: Result<Archive>, parse: seq<byte> -> Result<Json>,
                                 fetch: string -> Response, sha1: seq<byte> -> seq<byte>)
      requires CanInstall(nodes)
      ensures minecraftPath.Some? && modpackInfo.Some? && Exists(nodes, minecraftPath.value) && !isInstalling
      ensures installMode == LocalFile ==> selectedMrpackFile.Some?
      ensures installMode == ApiDownload ==>
        var r := PackSpec(nodes, locked, minecraftPath.value, installMode, apiResponse, selectedMrpackFile, modpackIndex, pack, parse, fetch, sha1);
        && (pack.Err? ==> r == (Fail(pack.error), nodes, 0.2, modpackIndex))
        && (pack.Ok? ==>
              match MS.LoadModpackInfoSpec(pack.value, parse)
              case Err(e) => r == (Fail(e), nodes, 0.4, modpackIndex)
              case Ok((_, loaded)) =>
                && r.3 == Some(loaded)
                && (r.0, r.1, r.2) == UnpackSpec(nodes, locked, minecraftPath.value, installMode, pack.value, loaded, 0.4, fetch, sha1))
    {
    }

    /** `canClear`: no install running and something to clear. */
    predicate CanClear()
      reads this
    {
      !isInstalling && (selectedMrpackFile.Some? || apiResponse.Some? || statusMessage != "")
    }

    /** `installLoader`: a modpack without a loader skips the step; an
        installer's failure, or an exception from it, ends the install. */
    method InstallLoaderStep(m: Machine, info: ModpackInfo, mc: Path) returns (o: Outcome)
      modifies m`trace
      ensures var (c, t) := InstallLoaderSpec(m.env, old(m.trace), info.loaderType, info.minecraftVersion, info.loaderVersion, mc);
        m.trace == t && o == Caught(c)
    {
      if info.loaderType == NoLoader {
        return Pass;
      }
      var c := InstallLoader(m, info.loaderType, info.minecraftVersion, info.loaderVersion, mc);
      o := Caught(c);
    }

    /** `downloadAndInstallMods`: the mods of the index, one by one, with the
        progress bar advancing before each; an empty list is no failure. */
    method DownloadAndInstallMods(fs: FileSystem, index: Json, mc: Path, fetch: string -> Response, sha1: seq<byte> -> seq<byte>)
      returns (o: Outcome)
      modifies fs`nodes, this`installProgress
      ensures (o, fs.nodes, installProgress)
        == DownloadModsFrom(old(fs.nodes), fs.locked, mc, MS.ParseModFilesSpec(index), 0, installMode, old(installProgress), fetch, sha1)
    {
      var mods := MS.ParseModFiles(index);
      if |mods| == 0 {
        return Pass;
      }
      o := DownloadMods(fs, mods, mc, fetch, sha1);
    }

    /** The loop of `downloadAndInstallMods` over the listed mods. */
    method DownloadMods(fs: FileSystem, mods: seq<ModFile>, mc: Path, fetch: string -> Response, sha1: seq<byte> -> seq<byte>)
      returns (o: Outcome)
      modifies fs`nodes, this`installProgress
      ensures (o, fs.nodes, installProgress)
        == DownloadModsFrom(old(fs.nodes), fs.locked, mc, mods, 0, installMode, old(installProgress), fetch, sha1)
    {
      var i := 0;
      while i < |mods|
        invariant 0 <= i <= |mods|
        invariant DownloadModsFrom(fs.nodes, fs.locked, mc, mods, i, installMode, installProgress, fetch, sha1)
          == DownloadModsFrom(old(fs.nodes), fs.locked, mc, mods, 0, installMode, old(installProgress), fetch, sha1)
      {
        installProgress := ModProgress(installMode, i + 1, |mods|);
        o := DownloadAndVerifyModFile(fs, mc, mods[i], fetch, sha1);
        if o.Fail? {
          return;
        }
        i := i + 1;
      }
      o := Pass;
    }

    /** Extract, clean and download, as `UnpackSpec` describes. */
    method Unpack(fs: FileSystem, mc: Path, mrpack: Archive, index: Json, fetch: string -> Response, sha1: seq<byte> -> seq<byte>)
      returns (o: Outcome)
      modifies fs`nodes, this`installProgress
      ensures (o, fs.nodes, installProgress)
        == UnpackSpec(old(fs.nodes), fs.locked, mc, installMode, mrpack, index, old(installProgress), fetch, sha1)
    {
      o := MS.ExtractIncludedFiles(fs, mrpack, mc);
      if o.Fail? {
        return;
      }
      installProgress := BaseProgress(installMode);
      o := CleanModsFolder(fs, mc);
      if o.Fail? {
        return;
      }
      o := DownloadAndInstallMods(fs, index, mc, fetch, sha1);
    }

    /** `installModpack`. Without a Minecraft folder or a modpack description
        it fails and changes nothing. Otherwise it runs the pipeline
        `InstallSpec` describes, reports the outcome in the status, fills
        the progress bar on success and always ends with no install
        running. `pack` is what downloading the offered modpack yields. */
    method InstallModpack(fs: FileSystem, m: Machine, pack: Result<Archive>, parse: seq<byte> -> Result<Json>,
                          fetch: string -> Response, sha1: seq<byte> -> seq<byte>) returns (o: Outcome)
      modifies fs`nodes, m`trace, this`isInstalling, this`installProgress, this`statusMessage, this`modpackIndex
      ensures old(minecraftPath).None? ==> o == Fail(NoPathMessage) && unchanged(this, fs, m)
      ensures old(minecraftPath).Some? && old(modpackInfo).None? ==> o == Fail(NoInfoMessage) && unchanged(this, fs, m)
      ensures old(minecraftPath).Some? && old(modpackInfo).Some? ==>
        var run := InstallSpec(old(fs.nodes), fs.locked, m.env, old(m.trace), minecraftPath.value, modpackInfo.value,
                               installMode, apiResponse, selectedMrpackFile, old(modpackIndex), pack, parse, fetch, sha1);
        && o == run.outcome && fs.nodes == run.nodes && m.trace == run.trace && modpackIndex == run.index
        && !isInstalling
        && installProgress == (if o.Pass? then 1.0 else run.progress)
        && statusMessage == (if o.Pass? then InstalledMessage else InstallErrorMessage(o.error))
    {
      if minecraftPath.None? {
        return Fail(NoPathMessage);
      }
      if modpackInfo.None? {
        return Fail(NoInfoMessage);
      }
      o := Install(fs, m, minecraftPath.value, modpackInfo.value, pack, parse, fetch, sha1);
    }

    /** `installModpack` once both guards have passed. */
    method Install(fs: FileSystem, m: Machine, mc: Path, info: ModpackInfo, pack: Result<Archive>, parse: seq<byte> -> Result<Json>,
                   fetch: string -> Response, sha1: seq<byte> -> seq<byte>) returns (o: Outcome)
      modifies fs`nodes, m`trace, this`isInstalling, this`installProgress, this`statusMessage, this`modpackIndex
      ensures var run := InstallSpec(old(fs.nodes), fs.locked, m.env, old(m.trace), mc, info,
                                     installMode, apiResponse, selectedMrpackFile, old(modpackIndex), pack, parse, fetch, sha1);
        && o == run.outcome && fs.nodes == run.nodes && m.trace == run.trace && modpackIndex == run.index
        && !isInstalling
        && installProgress == (if o.Pass? then 1.0 else run.progress)
        && statusMessage == (if o.Pass? then InstalledMessage else InstallErrorMessage(o.error))
    {
      isInstalling := true;
      o := RunPipeline(fs, m, mc, info, pack, parse, fetch, sha1);
      if o.Pass? {
        statusMessage := InstalledMessage;
        installProgress := 1.0;
      } else {
        statusMessage := InstallErrorMessage(o.error);
      }
      isInstalling := false;
    }

    /** The body of `installModpack`'s `runCatching` block. */
    method RunPipeline(fs: FileSystem, m: Machine, mc: Path, info: ModpackInfo, pack: Result<Archive>,
                       parse: seq<byte> -> Result<Json>, fetch: string -> Response, sha1: seq<byte> -> seq<byte>)
      returns (o: Outcome)
      modifies fs`nodes, m`trace, this`installProgress, this`modpackIndex
      ensures var run := InstallSpec(old(fs.nodes), fs.locked, m.env, old(m.trace), mc, info,
                                     installMode, apiResponse, selectedMrpackFile, old(modpackIndex), pack, parse, fetch, sha1);
        o == run.outcome && fs.nodes == run.nodes && m.trace == run.trace && modpackIndex == run.index
        && (o.Fail? ==> installProgress == run.progress)
    {
      installProgress := 0.0;
      o := EnsureMinecraftDirectoryStructure(fs, mc);
      if o.Fail? {
        return;
      }
      installProgress := 0.1;
      o := InstallLoaderStep(m, info, mc);
      if o.Fail? {
        return;
      }
      o := InstallPack(fs, mc, pack, parse, fetch, sha1);
    }

    /** The modpack part of `installModpack`: in API mode download and read
        the offered modpack, in local mode use the selected one; then
        `UnpackSpec`. */
    method InstallPack(fs: FileSystem, mc: Path, pack: Result<Archive>, parse: seq<byte> -> Result<Json>,
                       fetch: string -> Response, sha1: seq<byte> -> seq<byte>) returns (o: Outcome)
      modifies fs`nodes, this`installProgress, this`modpackIndex
      ensures (o, fs.nodes, installProgress, modpackIndex)
        == PackSpec(old(fs.nodes), fs.locked, mc, installMode, apiResponse, selectedMrpackFile, old(modpackIndex), pack, parse, fetch, sha1)
    {
      installProgress := 0.2;
      if installMode == ApiDownload {
        if apiResponse.None? {
          return Fail(NullMessage);
        }
        if !apiResponse.value.available {
          return Fail(NotAvailableMessage);
        }
        if pack.Err? {
          return Fail(pack.error);
        }
        installProgress := 0.4;
        var loaded := MS.LoadModpackInfo(pack.value, parse);
        if loaded.Err? {
          return Fail(loaded.error);
        }
        modpackIndex := Some(loaded.value.1);
        o := Unpack(fs, mc, pack.value, loaded.value.1, fetch, sha1);
      } else {
        if selectedMrpackFile.None? {
          return Fail(NoFileMessage);
        }
        if modpackIndex.None? {
          return Fail(NoIndexMessage);
        }
        o := Unpack(fs, mc, selectedMrpackFile.value, modpackIndex.value, fetch, sha1);
      }
    }
  }

  // ---------------------------------------------------------------------
  // Properties of the pipeline

  /** Downloading the mods from position i on succeeds only when every mod
      from there was fetched with status 200 and matched its hash. */
  lemma {:induction false} DownloadModsVerified(nodes: Nodes, locked: set<Path>, mc: Path, mods: seq<ModFile>, i: nat, k: nat,
                                                mode: InstallMode, progress: real, fetch: string -> Response, sha1: seq<byte> -> seq<byte>)
    requires i <= k < |mods|
    requires DownloadModsFrom(nodes, locked, mc, mods, i, mode, progress, fetch, sha1).0.Pass?
    ensures fetch(mods[k].downloadUrl).Response? && fetch(mods[k].downloadUrl).status == HttpOk
    ensures Hex(sha1(fetch(mods[k].downloadUrl).body)) == mods[k].sha1
    decreases |mods| - i
  {
    var step := DownloadAndVerifySpec(nodes, locked, mc, mods[i], fetch, sha1);
    assert step.0.Pass?;
    if i == k {
      DownloadAndVerifyEffect(nodes, locked, mc, mods[i], fetch, sha1);
    } else {
      DownloadModsVerified(step.1, locked, mc, mods, i + 1, k, mode, ModProgress(mode, i + 1, |mods|), fetch, sha1);
    }
  }

  /** The progress shown while the last mod downloads is a full bar. */
  lemma LastModFillsProgress(mode: InstallMode, total: nat)
    requires total > 0
    ensures ModProgress(mode, total, total) == 1.0
  {
    assert total as real / total as real == 1.0;
  }

  /** A successful run over at least one mod leaves the progress bar full. */
  lemma {:induction false} DownloadModsFillProgress(nodes: Nodes, locked: set<Path>, mc: Path, mods: seq<ModFile>, i: nat,
                                                    mode: InstallMode, progress: real, fetch: string -> Response, sha1: seq<byte> -> seq<byte>)
    requires i < |mods|
    requires DownloadModsFrom(nodes, locked, mc, mods, i, mode, progress, fetch, sha1).0.Pass?
    ensures DownloadModsFrom(nodes, locked, mc, mods, i, mode, progress, fetch, sha1).2 == 1.0
    decreases |mods| - i
  {
    var p := ModProgress(mode, i + 1, |mods|);
    var step := DownloadAndVerifySpec(nodes, locked, mc, mods[i], fetch, sha1);
    if i + 1 == |mods| {
      LastModFillsProgress(mode, |mods|);
    } else {
      DownloadModsFillProgress(step.1, locked, mc, mods, i + 1, mode, p, fetch, sha1);
    }
  }

  /** Downloading mods never turns a directory into anything else. */
  lemma {:induction false} DownloadModsKeepDirectories(nodes: Nodes, locked: set<Path>, mc: Path, mods: seq<ModFile>, i: nat,
                                                       mode: InstallMode, progress: real, fetch: string -> Response, sha1: seq<byte> -> seq<byte>)
    requires i <= |mods|
    ensures KeepsDirectories(nodes, DownloadModsFrom(nodes, locked, mc, mods, i, mode, progress, fetch, sha1).1)
    decreases |mods| - i
  {
    if i < |mods| {
      var p := ModProgress(mode, i + 1, |mods|);
      DownloadAndVerifyKeepsDirectories(nodes, locked, mc, mods[i], fetch, sha1);
      var n := DownloadAndVerifySpec(nodes, locked, mc, mods[i], fetch, sha1).1;
      DownloadModsKeepDirectories(n, locked, mc, mods, i + 1, mode, p, fetch, sha1);
      KeepsDirectoriesTrans(nodes, n, DownloadModsFrom(n, locked, mc, mods, i + 1, mode, p, fetch, sha1).1);
    }
  }

  lemma UnpackKeepsDirectories(nodes: Nodes, locked: set<Path>, mc: Path, mode: InstallMode, mrpack: Archive, index: Json, before: real,
                               fetch: string -> Response, sha1: seq<byte> -> seq<byte>)
    ensures KeepsDirectories(nodes, UnpackSpec(nodes, locked, mc, mode, mrpack, index, before, fetch, sha1).1)
  {
    MS.ExtractFromKeepsDirectories(nodes, mc, mrpack, 0);
    var n1 := MS.ExtractFrom(nodes, mc, mrpack, 0).1;
    CleanModsFolderKeepsDirectories(n1, locked, mc);
    var n2 := CleanModsFolderSpec(n1, locked, mc).1;
    DownloadModsKeepDirectories(n2, locked, mc, MS.ParseModFilesSpec(index), 0, mode, BaseProgress(mode), fetch, sha1);
    KeepsDirectoriesTrans(nodes, n1, n2);
    KeepsDirectoriesTrans(nodes, n2, DownloadModsFrom(n2, locked, mc, MS.ParseModFilesSpec(index), 0, mode, BaseProgress(mode), fetch, sha1).1);
  }

  lemma PackKeepsDirectories(nodes: Nodes, locked: set<Path>, mc: Path, mode: InstallMode, apiResponse: Option<ApiResponse>,
                             selected: Option<Archive>, index: Option<Json>, pack: Result<Archive>, parse: seq<byte> -> Result<Json>,
                             fetch: string -> Response, sha1: seq<byte> -> seq<byte>)
    ensures KeepsDirectories(nodes, PackSpec(nodes, locked, mc, mode, apiResponse, selected, index, pack, parse, fetch, sha1).1)
  {
    if mode == ApiDownload && pack.Ok? && MS.LoadModpackInfoSpec(pack.value, parse).Ok? {
      UnpackKeepsDirectories(nodes, locked, mc, mode, pack.value, MS.LoadModpackInfoSpec(pack.value, parse).value.1, 0.4, fetch, sha1);
    } else if mode == LocalFile && selected.Some? && index.Some? {
      UnpackKeepsDirectories(nodes, locked, mc, mode, selected.value, index.value, 0.2, fetch, sha1);
    }
  }

  /** Where the pipeline's filesystem comes from: the modpack step's when
      the folders and the loader succeeded, the folder step's otherwise. */
  lemma InstallNodes(nodes: Nodes, locked: set<Path>, env: Env, trace: seq<Effect>, mc: Path, info: ModpackInfo,
                     mode: InstallMode, apiResponse: Option<ApiResponse>, selected: Option<Archive>, index: Option<Json>,
                     pack: Result<Archive>, parse: seq<byte> -> Result<Json>,
                     fetch: string -> Response, sha1: seq<byte> -> seq<byte>)
    ensures var run := InstallSpec(nodes, locked, env, trace, mc, info, mode, apiResponse, selected, index, pack, parse, fetch, sha1);
      var ensured := EnsureFrom(nodes, mc, 0);
      var loader := InstallLoaderSpec(env, trace, info.loaderType, info.minecraftVersion, info.loaderVersion, mc);
      run.nodes == (if ensured.0.Pass? && loader.0 == Returned(Pass)
                    then PackSpec(ensured.1, locked, mc, mode, apiResponse, selected, index, pack, parse, fetch, sha1).1
                    else ensured.1)
  {
  }

  /** The pipeline never turns a directory into anything else. */
  lemma InstallKeepsDirectories(nodes: Nodes, locked: set<Path>, env: Env, trace: seq<Effect>, mc: Path, info: ModpackInfo,
                                mode: InstallMode, apiResponse: Option<ApiResponse>, selected: Option<Archive>, index: Option<Json>,
                                pack: Result<Archive>, parse: seq<byte> -> Result<Json>,
                                fetch: string -> Response, sha1: seq<byte> -> seq<byte>)
    ensures KeepsDirectories(nodes, InstallSpec(nodes, locked, env, trace, mc, info, mode, apiResponse, selected, index, pack, parse, fetch, sha1).nodes)
  {
    EnsureFromEffect(nodes, mc, 0);
    var n1 := EnsureFrom(nodes, mc, 0).1;
    PackKeepsDirectories(n1, locked, mc, mode, apiResponse, selected, index, pack, parse, fetch, sha1);
    KeepsDirectoriesTrans(nodes, n1, PackSpec(n1, locked, mc, mode, apiResponse, selected, index, pack, parse, fetch, sha1).1);
    InstallNodes(nodes, locked, env, trace, mc, info, mode, apiResponse, selected, index, pack, parse, fetch, sha1);
  }

  /** After a successful run each required folder is a directory, unless it
      was a regular file to begin with. */
  lemma InstallLeavesStructure(nodes: Nodes, locked: set<Path>, env: Env, trace: seq<Effect>, mc: Path, info: ModpackInfo,
                               mode: InstallMode, apiResponse: Option<ApiResponse>, selected: Option<Archive>, index: Option<Json>,
                               pack: Result<Archive>, parse: seq<byte> -> Result<Json>,
                               fetch: string -> Response, sha1: seq<byte> -> seq<byte>)
    requires forall k :: 0 <= k < |RequiredDirs| ==> !IsRegularFile(nodes, mc + [RequiredDirs[k]])
    ensures var run := InstallSpec(nodes, locked, env, trace, mc, info, mode, apiResponse, selected, index, pack, parse, fetch, sha1);
      run.outcome.Pass? ==> forall k :: 0 <= k < |RequiredDirs| ==> IsDirectory(run.nodes, mc + [RequiredDirs[k]])
  {
    var ensured := EnsureFrom(nodes, mc, 0);
    EnsureStructureMakesDirectories(nodes, mc);
    PackKeepsDirectories(ensured.1, locked, mc, mode, apiResponse, selected, index, pack, parse, fetch, sha1);
    InstallNodes(nodes, locked, env, trace, mc, info, mode, apiResponse, selected, index, pack, parse, fetch, sha1);
    InstallSucceeded(nodes, locked, env, trace, mc, info, mode, apiResponse, selected, index, pack, parse, fetch, sha1);
  }

  /** A successful run means: the folders were made, the loader installed,
      and the pack read. In API mode the server offered a modpack, it was
      downloaded and its index is the one kept afterwards; in local mode a
      file and its index were selected and the index stays. */
  lemma InstallSucceeded(nodes: Nodes, locked: set<Path>, env: Env, trace: seq<Effect>, mc: Path, info: ModpackInfo,
                         mode: InstallMode, apiResponse: Option<ApiResponse>, selected: Option<Archive>, index: Option<Json>,
                         pack: Result<Archive>, parse: seq<byte> -> Result<Json>,
                         fetch: string -> Response, sha1: seq<byte> -> seq<byte>)
    ensures var run := InstallSpec(nodes, locked, env, trace, mc, info, mode, apiResponse, selected, index, pack, parse, fetch, sha1);
      run.outcome.Pass? ==>
        && EnsureFrom(nodes, mc, 0).0.Pass?
        && InstallLoaderSpec(env, trace, info.loaderType, info.minecraftVersion, info.loaderVersion, mc).0 == Returned(Pass)
        && run.trace == InstallLoaderSpec(env, trace, info.loaderType, info.minecraftVersion, info.loaderVersion, mc).1
        && (mode == ApiDownload ==>
              && apiResponse.Some? && apiResponse.value.available && pack.Ok?
              && MS.LoadModpackInfoSpec(pack.value, parse).Ok?
              && run.index == Some(MS.LoadModpackInfoSpec(pack.value, parse).value.1))
        && (mode == LocalFile ==> selected.Some? && index.Some? && run.index == index)
  {
  }

  /** When the folders cannot be made the pipeline ends there: no installer
      runs and the index stays. */
  lemma InstallStopsWhenFoldersFail(nodes: Nodes, locked: set<Path>, env: Env, trace: seq<Effect>, mc: Path, info: ModpackInfo,
                                    mode: InstallMode, apiResponse: Option<ApiResponse>, selected: Option<Archive>, index: Option<Json>,
                                    pack: Result<Archive>, parse: seq<byte> -> Result<Json>,
                                    fetch: string -> Response, sha1: seq<byte> -> seq<byte>)
    requires EnsureFrom(nodes, mc, 0).0.Fail?
    ensures var run := InstallSpec(nodes, locked, env, trace, mc, info, mode, apiResponse, selected, index, pack, parse, fetch, sha1);
      run == Installation(EnsureFrom(nodes, mc, 0).0, EnsureFrom(nodes, mc, 0).1, trace, 0.0, index)
  {
  }

  /** When the loader step fails, nothing of the modpack is written and the
      index stays. */
  lemma InstallStopsWhenLoaderFails(nodes: Nodes, locked: set<Path>, env: Env, trace: seq<Effect>, mc: Path, info: ModpackInfo,
                                    mode: InstallMode, apiResponse: Option<ApiResponse>, selected: Option<Archive>, index: Option<Json>,
                                    pack: Result<Archive>, parse: seq<byte> -> Result<Json>,
                                    fetch: string -> Response, sha1: seq<byte> -> seq<byte>)
    requires EnsureFrom(nodes, mc, 0).0.Pass?
    requires InstallLoaderSpec(env, trace, info.loaderType, info.minecraftVersion, info.loaderVersion, mc).0 != Returned(Pass)
    ensures var run := InstallSpec(nodes, locked, env, trace, mc, info, mode, apiResponse, selected, index, pack, parse, fetch, sha1);
      run.outcome.Fail? && run.nodes == EnsureFrom(nodes, mc, 0).1 && run.index == index && run.progress == 0.1
  {
  }

  /** The installers are the only thing the pipeline does to the machine:
      once the folders exist, the record is the loader step's; with no
      loader nothing is recorded at all. */
  lemma InstallTraceIsLoaders(nodes: Nodes, locked: set<Path>, env: Env, trace: seq<Effect>, mc: Path, info: ModpackInfo,
                              mode: InstallMode, apiResponse: Option<ApiResponse>, selected: Option<Archive>, index: Option<Json>,
                              pack: Result<Archive>, parse: seq<byte> -> Result<Json>,
                              fetch: string -> Response, sha1: seq<byte> -> seq<byte>)
    ensures var run := InstallSpec(nodes, locked, env, trace, mc, info, mode, apiResponse, selected, index, pack, parse, fetch, sha1);
      && (EnsureFrom(nodes, mc, 0).0.Pass? ==> run.trace == InstallLoaderSpec(env, trace, info.loaderType, info.minecraftVersion, info.loaderVersion, mc).1)
      && (info.loaderType == NoLoader ==> run.trace == trace)
  {
  }
}
