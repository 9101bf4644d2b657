/** `LoaderInstallerService`: installing the mod loader a modpack needs by
    downloading the loader's installer jar into a temporary folder, running it
    with `java -jar` and removing the folder again. The machine is reached
    through oracles that see everything done before (the trace), so two
    attempts can get different answers. */
module LoaderInstallerService {
  import opened Wrappers
  import opened Text
  import opened Fs
  import opened Models

  /** What the installer does to the machine, in order. */
  datatype Effect =
    | CreateTemp(prefix: string)
    | Download(url: string, target: Path)
    | Run(command: seq<string>)
    | RemoveTemp(dir: Path)

  /** The machine's answers: the folder `createTempDirectory` makes (or its
      exception); whether `downloadFile` succeeded; the exit code of the
      process, or the exception when it cannot be started; and whether the
      temporary folder could be removed. */
  datatype Env = Env(
    createTemp: (seq<Effect>, string) -> Result<Path>,
    download: (seq<Effect>, string, Path) -> Outcome,
    run: (seq<Effect>, seq<string>) -> Result<int>,
    cleanup: (seq<Effect>, Path) -> Outcome)

  /** How a call ends: with a returned `Result`, or with an exception that
      escapes it. */
  datatype Completion = Returned(result: Outcome) | Threw(error: string)

  /** What a caller's `runCatching` makes of a call: an escaping exception
      becomes a failure. */
  function Caught(c: Completion): (o: Outcome)
    ensures o.Pass? <==> c == Returned(Pass)
  {
    match c
    case Threw(e) => Fail(e)
    case Returned(r) => r
  }

  /** The machine the installers run on, with the record of what they did. */
  class Machine {
    const env: Env
    var trace: seq<Effect>

    constructor (env0: Env)
      ensures env == env0 && trace == []
    {
      env := env0;
      trace := [];
    }

    method CreateTempDirectory(prefix: string) returns (r: Result<Path>)
      modifies this`trace
      ensures r == env.createTemp(old(trace), prefix) && trace == old(trace) + [CreateTemp(prefix)]
    {
      r := env.createTemp(trace, prefix);
      trace := trace + [CreateTemp(prefix)];
    }

    method DownloadFile(url: string, target: Path) returns (o: Outcome)
      modifies this`trace
      ensures o == env.download(old(trace), url, target) && trace == old(trace) + [Download(url, target)]
    {
      o := env.download(trace, url, target);
      trace := trace + [Download(url, target)];
    }

    /** Starting the process, draining its output and waiting for it. */
    method RunProcess(command: seq<string>) returns (r: Result<int>)
      modifies this`trace
      ensures r == env.run(old(trace), command) && trace == old(trace) + [Run(command)]
    {
      r := env.run(trace, command);
      trace := trace + [Run(command)];
    }

    method RemoveTempDirectory(dir: Path) returns (o: Outcome)
      modifies this`trace
      ensures o == env.cleanup(old(trace), dir) && trace == old(trace) + [RemoveTemp(dir)]
    {
      o := env.cleanup(trace, dir);
      trace := trace + [RemoveTemp(dir)];
    }
  }

  // ---------------------------------------------------------------------
  // Installer locations and arguments

  function ForgeUrl(mcVersion: string, forgeVersion: string): string
  {
    "https://maven.minecraftforge.net/net/minecraftforge/forge/" + mcVersion + "-" + forgeVersion
      + "/forge-" + mcVersion + "-" + forgeVersion + "-installer.jar"
  }

  function NeoForgeUrl(neoforgeVersion: string): string
  {
    "https://maven.neoforged.net/releases/net/neoforged/neoforge/" + neoforgeVersion
      + "/neoforge-" + neoforgeVersion + "-installer.jar"
  }

  const FabricUrl := "https://maven.fabricmc.net/net/fabricmc/fabric-installer/1.0.1/fabric-installer-1.0.1.jar"
  const QuiltUrl := "https://maven.quiltmc.org/repository/release/org/quiltmc/quilt-installer/0.9.1/quilt-installer-0.9.1.jar"

  /** Forge's and NeoForge's installer arguments. */
  function ClientArgs(mc: Path): seq<string>
  {
    ["--installClient", Render(mc)]
  }

  function FabricArgs(mcVersion: string, fabricVersion: string, dir: Path): seq<string>
  {
    ["client", "-mcversion", mcVersion, "-loader", fabricVersion, "-dir", Render(dir)]
  }

  function QuiltArgs(mcVersion: string, quiltVersion: string, mc: Path): seq<string>
  {
    ["install", "client", mcVersion, quiltVersion, "--install-dir=" + Render(mc), "--no-profile"]
  }

  /** Fabric's first target: the folder above the Minecraft folder, or the
      Minecraft folder itself when it has none. */
  function LauncherDir(mc: Path): Path
  {
    match Parent(mc)
    case Some(p) => p
    case None => mc
  }

  function TempPrefix(name: string): string
  {
    LowerString(name) + "_installer"
  }

  function InstallerFile(dir: Path, name: string): Path
  {
    dir + [name + "-installer.jar"]
  }

  function InstallerCommand(installer: Path, args: seq<string>): seq<string>
  {
    ["java", "-jar", Render(installer)] + args
  }

  function ExitCodeMessage(name: string, exitCode: int): string
  {
    name + " installer failed with exit code: " + IntToDecimal(exitCode)
  }

  // ---------------------------------------------------------------------
  // One installer run

  /** The part of `installWithInstaller` inside `runCatching`: download the
      installer, run it, and fail on a non-zero exit code. */
  function RunInstallerSpec(env: Env, trace: seq<Effect>, name: string, url: string, installer: Path, args: seq<string>): (Outcome, seq<Effect>)
  {
    var t1 := trace + [Download(url, installer)];
    match env.download(trace, url, installer)
    case Fail(e) => (Fail(e), t1)
    case Pass =>
      var command := InstallerCommand(installer, args);
      var t2 := t1 + [Run(command)];
      match env.run(t1, command)
      case Err(e) => (Fail(e), t2)
      case Ok(code) => (if code == 0 then Pass else Fail(ExitCodeMessage(name, code)), t2)
  }

  /** `installWithInstaller`: creating the temporary folder can throw out of
      the call; once it exists, the installer's result is returned and the
      folder is removed afterwards, whatever happened. */
  function InstallWithInstallerSpec(env: Env, trace: seq<Effect>, name: string, url: string, args: seq<string>): (Completion, seq<Effect>)
  {
    var t1 := trace + [CreateTemp(TempPrefix(name))];
    match env.createTemp(trace, TempPrefix(name))
    case Err(e) => (Threw(e), t1)
    case Ok(dir) =>
      var (result, t2) := RunInstallerSpec(env, t1, name, url, InstallerFile(dir, name), args);
      (Returned(result), t2 + [RemoveTemp(dir)])
  }

  method InstallWithInstaller(m: Machine, name: string, url: string, args: seq<string>) returns (c: Completion)
    modifies m`trace
    ensures (c, m.trace) == InstallWithInstallerSpec(m.env, old(m.trace), name, url, args)
  {
    var temp := m.CreateTempDirectory(TempPrefix(name));
    if temp.Err? {
      return Threw(temp.error);
    }
    var installer := InstallerFile(temp.value, name);
    var result: Outcome;
    var downloaded := m.DownloadFile(url, installer);
    if downloaded.Fail? {
      result := downloaded;
    } else {
      var exitCode := m.RunProcess(InstallerCommand(installer, args));
      if exitCode.Err? {
        result := Fail(exitCode.error);
      } else if exitCode.value != 0 {
        result := Fail(ExitCodeMessage(name, exitCode.value));
      } else {
        result := Pass;
      }
    }
    var _ := m.RemoveTempDirectory(temp.value);
    c := Returned(result);
  }

  // ---------------------------------------------------------------------
  // The four loaders

  /** `installFabric`: a failed first attempt is retried once with the
      Minecraft folder as target; an exception in the retry becomes a failure,
      one in the first attempt escapes. */
  function InstallFabricSpec(env: Env, trace: seq<Effect>, mcVersion: string, fabricVersion: string, mc: Path): (Completion, seq<Effect>)
  {
    var (first, t1) := InstallWithInstallerSpec(env, trace, "Fabric", FabricUrl, FabricArgs(mcVersion, fabricVersion, LauncherDir(mc)));
    if first != Returned(Pass) && first.Returned? then
      var (second, t2) := InstallWithInstallerSpec(env, t1, "Fabric", FabricUrl, FabricArgs(mcVersion, fabricVersion, mc));
      (Returned(Caught(second)), t2)
    else
      (first, t1)
  }

  method InstallFabric(m: Machine, mcVersion: string, fabricVersion: string, mc: Path) returns (c: Completion)
    modifies m`trace
    ensures (c, m.trace) == InstallFabricSpec(m.env, old(m.trace), mcVersion, fabricVersion, mc)
  {
    c := InstallWithInstaller(m, "Fabric", FabricUrl, FabricArgs(mcVersion, fabricVersion, LauncherDir(mc)));
    if c.Returned? && c.result.Fail? {
      var second := InstallWithInstaller(m, "Fabric", FabricUrl, FabricArgs(mcVersion, fabricVersion, mc));
      c := Returned(Caught(second));
    }
  }

  /** `installLoader`: dispatch on the loader type; NONE succeeds at once. */
  function InstallLoaderSpec(env: Env, trace: seq<Effect>, loader: LoaderType, mcVersion: string, loaderVersion: string, mc: Path): (Completion, seq<Effect>)
  {
    match loader
    case Forge => InstallWithInstallerSpec(env, trace, "Forge", ForgeUrl(mcVersion, loaderVersion), ClientArgs(mc))
    case NeoForge => InstallWithInstallerSpec(env, trace, "NeoForge", NeoForgeUrl(loaderVersion), ClientArgs(mc))
    case Fabric => InstallFabricSpec(env, trace, mcVersion, loaderVersion, mc)
    case Quilt => InstallWithInstallerSpec(env, trace, "Quilt", QuiltUrl, QuiltArgs(mcVersion, loaderVersion, mc))
    case NoLoader => (Returned(Pass), trace)
  }

  method InstallLoader(m: Machine, loader: LoaderType, mcVersion: string, loaderVersion: string, mc: Path) returns (c: Completion)
    modifies m`trace
    ensures (c, m.trace) == InstallLoaderSpec(m.env, old(m.trace), loader, mcVersion, loaderVersion, mc)
  {
    match loader {
      case Forge => c := InstallWithInstaller(m, "Forge", ForgeUrl(mcVersion, loaderVersion), ClientArgs(mc));
      case NeoForge => c := InstallWithInstaller(m, "NeoForge", NeoForgeUrl(loaderVersion), ClientArgs(mc));
      case Fabric => c := InstallFabric(m, mcVersion, loaderVersion, mc);
      case Quilt => c := InstallWithInstaller(m, "Quilt", QuiltUrl, QuiltArgs(mcVersion, loaderVersion, mc));
      case NoLoader => c := Returned(Pass);
    }
  }

  // ---------------------------------------------------------------------
  // Properties

  /** With no loader nothing is downloaded, run or created. */
  lemma NoLoaderDoesNothing(env: Env, trace: seq<Effect>, mcVersion: string, loaderVersion: string, mc: Path)
    ensures InstallLoaderSpec(env, trace, NoLoader, mcVersion, loaderVersion, mc) == (Returned(Pass), trace)
  {
  }

  /** An installer run succeeds exactly when the download succeeds and the
      process exits with code 0; on success the trace is: temporary folder,
      download, then the command `java -jar <installer> args`, then removal. */
  lemma InstallerSucceedsIff(env: Env, trace: seq<Effect>, name: string, url: string, args: seq<string>)
    ensures var (c, t) := InstallWithInstallerSpec(env, trace, name, url, args);
      && (c == Returned(Pass) <==>
            env.createTemp(trace, TempPrefix(name)).Ok?
            && var dir := env.createTemp(trace, TempPrefix(name)).value;
            && var t1 := trace + [CreateTemp(TempPrefix(name))];
            && env.download(t1, url, InstallerFile(dir, name)).Pass?
            && env.run(t1 + [Download(url, InstallerFile(dir, name))], InstallerCommand(InstallerFile(dir, name), args)) == Ok(0))
      && (c == Returned(Pass) ==>
            var dir := env.createTemp(trace, TempPrefix(name)).value;
            t == trace + [CreateTemp(TempPrefix(name)), Download(url, InstallerFile(dir, name)),
                          Run(["java", "-jar", Render(InstallerFile(dir, name))] + args), RemoveTemp(dir)])
  {
  }

  /** Once the temporary folder exists it is removed as the last step, on
      success and on failure alike, and only an exception from creating it
      escapes. What the removal reports is dropped, as `also` drops the
      result of `cleanupTempDirectory`: `env.cleanup` plays no part in the
      specification. */
  lemma CleanupAlwaysRuns(env: Env, trace: seq<Effect>, name: string, url: string, args: seq<string>)
    ensures var (c, t) := InstallWithInstallerSpec(env, trace, name, url, args);
      && (c.Threw? <==> env.createTemp(trace, TempPrefix(name)).Err?)
      && (c.Returned? ==> |t| > |trace| + 1 && t[|t| - 1] == RemoveTemp(env.createTemp(trace, TempPrefix(name)).value))
      && t[..|trace|] == trace && t[|trace|] == CreateTemp(TempPrefix(name))
  {
  }

  /** Fabric runs a second attempt, with the Minecraft folder as target,
      exactly when the first attempt returned a failure, and then its result
      is the second attempt's; it fails only when both attempts failed. */
  lemma FabricRetriesOnce(env: Env, trace: seq<Effect>, mcVersion: string, fabricVersion: string, mc: Path)
    ensures var (first, t1) := InstallWithInstallerSpec(env, trace, "Fabric", FabricUrl, FabricArgs(mcVersion, fabricVersion, LauncherDir(mc)));
      var (c, t) := InstallFabricSpec(env, trace, mcVersion, fabricVersion, mc);
      && (first == Returned(Pass) ==> c == Returned(Pass) && t == t1)
      && (first.Threw? ==> c == first && t == t1)
      && (first.Returned? && first.result.Fail? ==>
            var (second, t2) := InstallWithInstallerSpec(env, t1, "Fabric", FabricUrl, FabricArgs(mcVersion, fabricVersion, mc));
            && t == t2
            && (c == Returned(Pass) <==> second == Returned(Pass)))
      && (c.Returned? && c.result.Fail? ==> first.Returned? && first.result.Fail?)
  {
  }

  /** Fabric's first attempt targets the folder above the Minecraft folder. */
  lemma LauncherDirIsParent(mc: Path)
    ensures mc != [] ==> LauncherDir(mc) + [mc[|mc| - 1]] == mc
    ensures mc == [] ==> LauncherDir(mc) == mc
  {
  }

  /** NeoForge's installer depends on the loader version only: the Minecraft
      version plays no part. */
  lemma NeoForgeIgnoresMinecraftVersion(env: Env, trace: seq<Effect>, v1: string, v2: string, loaderVersion: string, mc: Path)
    ensures InstallLoaderSpec(env, trace, NeoForge, v1, loaderVersion, mc) == InstallLoaderSpec(env, trace, NeoForge, v2, loaderVersion, mc)
  {
  }

  /** The temporary folders are named after the loaders in lower case. */
  lemma TempPrefixes()
    ensures TempPrefix("Forge") == "forge_installer"
    ensures TempPrefix("NeoForge") == "neoforge_installer"
    ensures TempPrefix("Fabric") == "fabric_installer"
    ensures TempPrefix("Quilt") == "quilt_installer"
  {
    LowerForge();
    LowerNeoForge();
    LowerFabric();
    LowerQuilt();
  }

  lemma LowerForge() ensures LowerString("Forge") == "forge" {
    assert forall i | 0 <= i < 5 :: LowerString("Forge")[i] == "forge"[i];
  }

  lemma LowerNeoForge() ensures LowerString("NeoForge") == "neoforge" {
    assert forall i | 0 <= i < 8 :: LowerString("NeoForge")[i] == "neoforge"[i];
  }

  lemma LowerFabric() ensures LowerString("Fabric") == "fabric" {
    assert forall i | 0 <= i < 6 :: LowerString("Fabric")[i] == "fabric"[i];
  }

  lemma LowerQuilt() ensures LowerString("Quilt") == "quilt" {
    assert forall i | 0 <= i < 5 :: LowerString("Quilt")[i] == "quilt"[i];
  }

  /** What the source writes out for each loader: the temporary folder's
      prefix, the installer jar's name, its URL and the arguments of the
      loader's first installer run. */
  function InstallerTable(loader: LoaderType, mcVersion: string, v: string, mc: Path): (string, string, string, seq<string>)
  {
    match loader
    case Forge => ("forge_installer", "Forge-installer.jar", ForgeUrl(mcVersion, v), ["--installClient", Render(mc)])
    case NeoForge => ("neoforge_installer", "NeoForge-installer.jar", NeoForgeUrl(v), ["--installClient", Render(mc)])
    case Fabric => ("fabric_installer", "Fabric-installer.jar", FabricUrl,
                    ["client", "-mcversion", mcVersion, "-loader", v, "-dir", Render(LauncherDir(mc))])
    case Quilt => ("quilt_installer", "Quilt-installer.jar", QuiltUrl,
                   ["install", "client", mcVersion, v, "--install-dir=" + Render(mc), "--no-profile"])
    case NoLoader => ("", "", "", [])
  }

  /** The effects t, recorded after `trace`, begin an installer run: the
      temporary folder with the prefix; once it exists, the download of
      `url` into the jar there; and when that succeeds, `java -jar` on the
      jar with the arguments. */
  predicate RunsInstaller(env: Env, trace: seq<Effect>, t: seq<Effect>, prefix: string, jar: string, url: string, args: seq<string>)
  {
    && |t| > |trace| && t[..|trace|] == trace && t[|trace|] == CreateTemp(prefix)
    && (env.createTemp(trace, prefix).Ok? ==>
          var installer := env.createTemp(trace, prefix).value + [jar];
          && |t| > |trace| + 2 && t[|trace| + 1] == Download(url, installer)
          && (env.download(trace + [CreateTemp(prefix)], url, installer).Pass? ==>
                |t| > |trace| + 3 && t[|trace| + 2] == Run(["java", "-jar", Render(installer)] + args)))
  }

  /** Every loader except NONE runs its own installer, as the table gives
      it. The first effect is the temporary folder; once it exists, the next
      is the download of the installer jar into it, and when that succeeds
      the one after runs `java -jar` on the jar with the loader's arguments.
      For Fabric this is the first attempt, aimed at the folder above the
      Minecraft folder. */
  lemma LoaderCommands(env: Env, trace: seq<Effect>, loader: LoaderType, mcVersion: string, v: string, mc: Path)
    requires loader != NoLoader
    ensures var (prefix, jar, url, args) := InstallerTable(loader, mcVersion, v, mc);
      RunsInstaller(env, trace, InstallLoaderSpec(env, trace, loader, mcVersion, v, mc).1, prefix, jar, url, args)
  {
    match loader {
      case Forge => ForgeRunsInstaller(env, trace, mcVersion, v, mc);
      case NeoForge => NeoForgeRunsInstaller(env, trace, mcVersion, v, mc);
      case Fabric => FabricRunsInstaller(env, trace, mcVersion, v, mc);
      case Quilt => QuiltRunsInstaller(env, trace, mcVersion, v, mc);
    }
  }

  lemma ForgeRunsInstaller(env: Env, trace: seq<Effect>, mcVersion: string, v: string, mc: Path)
    ensures RunsInstaller(env, trace, InstallLoaderSpec(env, trace, Forge, mcVersion, v, mc).1,
                          "forge_installer", "Forge-installer.jar", ForgeUrl(mcVersion, v), ["--installClient", Render(mc)])
  {
    var url := ForgeUrl(mcVersion, v);
    InstallerEffects(env, trace, "Forge", url, ClientArgs(mc));
    assert InstallLoaderSpec(env, trace, Forge, mcVersion, v, mc) == InstallWithInstallerSpec(env, trace, "Forge", url, ClientArgs(mc));
    LowerForge();
    assert "Forge" + "-installer.jar" == "Forge-installer.jar";
  }

  lemma NeoForgeRunsInstaller(env: Env, trace: seq<Effect>, mcVersion: string, v: string, mc: Path)
    ensures RunsInstaller(env, trace, InstallLoaderSpec(env, trace, NeoForge, mcVersion, v, mc).1,
                          "neoforge_installer", "NeoForge-installer.jar", NeoForgeUrl(v), ["--installClient", Render(mc)])
  {
    var url := NeoForgeUrl(v);
    InstallerEffects(env, trace, "NeoForge", url, ClientArgs(mc));
    assert InstallLoaderSpec(env, trace, NeoForge, mcVersion, v, mc) == InstallWithInstallerSpec(env, trace, "NeoForge", url, ClientArgs(mc));
    LowerNeoForge();
    assert "NeoForge" + "-installer.jar" == "NeoForge-installer.jar";
  }

  lemma FabricRunsInstaller(env: Env, trace: seq<Effect>, mcVersion: string, v: string, mc: Path)
    ensures RunsInstaller(env, trace, InstallLoaderSpec(env, trace, Fabric, mcVersion, v, mc).1,
                          "fabric_installer", "Fabric-installer.jar", FabricUrl, FabricArgs(mcVersion, v, LauncherDir(mc)))
  {
    LowerFabric();
    assert "Fabric" + "-installer.jar" == "Fabric-installer.jar";
    var args := FabricArgs(mcVersion, v, LauncherDir(mc));
    InstallerEffects(env, trace, "Fabric", FabricUrl, args);
    FabricExtendsFirstAttempt(env, trace, mcVersion, v, mc);
    RunsInstallerExtends(env, trace, InstallWithInstallerSpec(env, trace, "Fabric", FabricUrl, args).1,
                         InstallFabricSpec(env, trace, mcVersion, v, mc).1, "fabric_installer", "Fabric-installer.jar", FabricUrl, args);
  }

  lemma QuiltRunsInstaller(env: Env, trace: seq<Effect>, mcVersion: string, v: string, mc: Path)
    ensures RunsInstaller(env, trace, InstallLoaderSpec(env, trace, Quilt, mcVersion, v, mc).1,
                          "quilt_installer", "Quilt-installer.jar", QuiltUrl, QuiltArgs(mcVersion, v, mc))
  {
    var args := QuiltArgs(mcVersion, v, mc);
    InstallerEffects(env, trace, "Quilt", QuiltUrl, args);
    assert InstallLoaderSpec(env, trace, Quilt, mcVersion, v, mc) == InstallWithInstallerSpec(env, trace, "Quilt", QuiltUrl, args);
    LowerQuilt();
    assert "Quilt" + "-installer.jar" == "Quilt-installer.jar";
  }

  /** Recording more effects afterwards keeps the start of an installer run. */
  lemma RunsInstallerExtends(env: Env, trace: seq<Effect>, t1: seq<Effect>, t: seq<Effect>, prefix: string, jar: string, url: string, args: seq<string>)
    requires RunsInstaller(env, trace, t1, prefix, jar, url, args)
    requires |t1| <= |t| && t[..|t1|] == t1
    ensures RunsInstaller(env, trace, t, prefix, jar, url, args)
  {
    assert t[..|trace|] == t1[..|trace|];
    forall k | 0 <= k < |t1| ensures t[k] == t1[k] {
      assert t[..|t1|][k] == t[k];
    }
  }

  /** Fabric's effects begin with those of its first attempt. */
  lemma FabricExtendsFirstAttempt(env: Env, trace: seq<Effect>, mcVersion: string, v: string, mc: Path)
    ensures var t1 := InstallWithInstallerSpec(env, trace, "Fabric", FabricUrl, FabricArgs(mcVersion, v, LauncherDir(mc))).1;
      var t := InstallFabricSpec(env, trace, mcVersion, v, mc).1;
      |t1| <= |t| && t[..|t1|] == t1
  {
    var first := InstallWithInstallerSpec(env, trace, "Fabric", FabricUrl, FabricArgs(mcVersion, v, LauncherDir(mc)));
    if first.0.Returned? {
      CleanupAlwaysRuns(env, first.1, "Fabric", FabricUrl, FabricArgs(mcVersion, v, mc));
    }
  }

  /** One installer run begins as `RunsInstaller` describes, with the
      loader's lower-cased prefix and `<name>-installer.jar`. */
  lemma InstallerEffects(env: Env, trace: seq<Effect>, name: string, url: string, args: seq<string>)
    ensures RunsInstaller(env, trace, InstallWithInstallerSpec(env, trace, name, url, args).1, TempPrefix(name), name + "-installer.jar", url, args)
  {
  }

  /** Fabric's first effect is its temporary folder, and whatever follows
      extends the trace. */
  lemma FabricStartsWithTemp(env: Env, trace: seq<Effect>, mcVersion: string, v: string, mc: Path)
    ensures var t := InstallFabricSpec(env, trace, mcVersion, v, mc).1;
      |t| > |trace| && t[..|trace|] == trace && t[|trace|] == CreateTemp(TempPrefix("Fabric"))
  {
    CleanupAlwaysRuns(env, trace, "Fabric", FabricUrl, FabricArgs(mcVersion, v, LauncherDir(mc)));
    var first := InstallWithInstallerSpec(env, trace, "Fabric", FabricUrl, FabricArgs(mcVersion, v, LauncherDir(mc)));
    if first.0.Returned? {
      CleanupAlwaysRuns(env, first.1, "Fabric", FabricUrl, FabricArgs(mcVersion, v, mc));
    }
  }
}
