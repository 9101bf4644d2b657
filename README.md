# Meica modpack installer, modelled in Dafny

The Meica modpack installer is a desktop application. It installs a Modrinth modpack (an `.mrpack` ZIP archive) into a Minecraft folder. It takes the modpack either from the project's server or from a local file. Installation has four parts:
- it creates the folders Minecraft needs;
- it runs the mod loader's installer (Forge, NeoForge, Fabric or Quilt);
- it copies the files bundled in the archive;
- it empties the `mods` folder of old `.jar` files.

It then downloads every mod the manifest `modrinth.index.json` lists, checking each one's SHA-1. A ledger `.mrpack_version.json` records what was installed, so a later offer can be compared with it.

This project models the decision logic of that installer and proves properties of it. There is one Dafny module per Kotlin source file:

| module | Kotlin file | form |
|---|---|---|
| `ModpackService` | `services/ModpackService.kt` | functions over archive entries and the JSON tree, plus methods for the copy loops and entry scans |
| `ModpackVersionService` | `services/ModpackVersionService.kt` | the ledger, written and read through the filesystem |
| `FileService` | `services/FileService.kt` | the mods-folder purge and the required-folder loop, as methods on the filesystem |
| `FileUtils` | `utils/FileUtils.kt` | hex encoding, hash check, size text, directory and delete helpers |
| `DownloadService` | `services/DownloadService.kt` | downloading a URL into a file and checking a mod's hash |
| `LoaderInstallerService` | `services/LoaderInstallerService.kt` | installer URLs, arguments, the temporary-folder protocol and Fabric's retry, run on a `Machine` |
| `ViewModel` | `ui/ModpackInstallerViewModel.kt` | class `ModpackInstallerViewModel` with the view-model's fields, and the install pipeline |
| `App` | `App.kt` | class `App`: the older single-class installer, with its own defaults and error handling |

These support modules carry the shared definitions:
- `Wrappers`: `Option`, `Result`, and `Outcome` for `Result<Unit>`.
- `Text`: decimal numerals, prefixes and suffixes, and Kotlin's `ignoreCase` matching.
- `Long64`: the wrap-around of `Long` addition.
- `Json`: Jackson's `JsonNode`, where `path` on an absent key gives the missing node and `get` gives null.
- `Models`: `ModFile`, `ModpackInfo`, `LoaderType`, `InstallMode`, `ApiResponse`.
- `Zip`: an archive is a sequence of entries (name, directory flag, bytes), plus a flag for a stream that ends early.
- `Fs`: the filesystem, described below.

The filesystem is a class `FileSystem`. It holds a map from paths to nodes: a directory, or a regular file with its bytes. It also holds a set of locked paths, which the system refuses to delete. A path is a sequence of names. Each JDK primitive (`Files.createDirectories`, `Files.deleteIfExists`, opening a `FileOutputStream`, `write`, reading a file) is one atomic update of that map. The repository's own loops are Dafny loops with invariants: byte copying, entry scans, the walk over `mods/`, and the loop over required folders. Each loop is proved against a specification function of the old state.

Whatever the code reaches outside itself becomes a function parameter:
- the HTTP server, from URL to status and body, a body that breaks off part-way, or no connection;
- SHA-1;
- Jackson's parser and serializer;
- the clock;
- the file dialogs and launcher detection (their choice);
- the modpack API's answer and download.

The loader installers run on a `Machine`. Its oracles answer temporary-folder creation, installer download, process start, exit code and folder removal. Each answer depends on the record of everything done before, so a retry can get a different answer. How a call ends, by returning a `Result` or by throwing out of it, is `Completion`. `Caught` is what a caller's `runCatching` makes of it.

Behaviour of the code worth knowing:
- A ledger that exists but cannot be parsed makes `compareVersions` return a failure. The "not installed" comparison built in `onFailure` is discarded.
- `verifyFileHash` compares the lower-case hex text with the expected text exactly, so an upper-case expected hash never matches.
- The view-model pipeline does not write the ledger.
- The view-model pipeline extracts the bundled files before it cleans `mods/`, so a bundled `mods/*.jar` is deleted again. The older `App` cleans first, then extracts.
- `App` keeps a downloaded mod whose hash does not match, because it checks only whether hashing failed. It also ignores the results its loader installers return.
- Creating the temporary folder in `installWithInstaller` happens outside `runCatching`. An exception there escapes the call, and Fabric does not retry on it.
- `ApiResponse` and `InstallMode` are not among the model files. Their fields are taken from how the view-model uses them.

## Model

| member | source | states |
|---|---|---|
| Long64.WrapAdd | composeApp/src/jvmMain/kotlin/org/crawkatt/mrpackinstaller/services/ModpackService.kt:87-92 | adding to a wrapped `Long` running total gives the wrapped exact total, so `totalSize +=` over a list is the sum modulo 2^64 |
| FileUtils.FormatFileSize | composeApp/src/jvmMain/kotlin/org/crawkatt/mrpackinstaller/utils/FileUtils.kt:12-17 | a text is produced exactly for sizes below 1024 |
| FileUtils.FormatFileSizeReadsBack | composeApp/src/jvmMain/kotlin/org/crawkatt/mrpackinstaller/utils/FileUtils.kt:13 | for 0..1023 the text is one to four decimal digits without a leading zero (only "0 B" starts with 0) that read back as the size, followed by " B" |
| FileUtils.HexByteDigits | composeApp/src/jvmMain/kotlin/org/crawkatt/mrpackinstaller/utils/FileUtils.kt:46 | `%02x` of a byte is two lower-case hex digits that decode back to the byte |
| FileUtils.HexShape | composeApp/src/jvmMain/kotlin/org/crawkatt/mrpackinstaller/utils/FileUtils.kt:43-47 | the digest text has two lower-case hex characters per byte, and the pair at 2i renders byte i |
| FileUtils.HexRoundTrip | composeApp/src/jvmMain/kotlin/org/crawkatt/mrpackinstaller/utils/FileUtils.kt:43-47 | decoding the digest text gives the digest back |
| FileUtils.HexInjective | composeApp/src/jvmMain/kotlin/org/crawkatt/mrpackinstaller/utils/FileUtils.kt:43-49 | two digests with the same text are equal, so the comparison accepts exactly one digest |
| FileUtils.UppercaseNeverMatches | composeApp/src/jvmMain/kotlin/org/crawkatt/mrpackinstaller/utils/FileUtils.kt:49 | an expected hash with any character that is not a lower-case hex digit matches no digest |
| FileUtils.EncodeHex | composeApp/src/jvmMain/kotlin/org/crawkatt/mrpackinstaller/utils/FileUtils.kt:44-47 | the `StringBuilder` loop yields the byte-by-byte hex rendering |
| FileUtils.VerifyFileHash | composeApp/src/jvmMain/kotlin/org/crawkatt/mrpackinstaller/utils/FileUtils.kt:31-51 | the 8192-byte read loop gives a failure when the file cannot be read, else whether the hex SHA-1 of the whole file equals the expected text; success implies the expected text has two characters per digest byte |
| FileUtils.CopyInChunks | composeApp/src/jvmMain/kotlin/org/crawkatt/mrpackinstaller/services/DownloadService.kt:31-40 | the buffered read/write loop leaves the just-opened target holding exactly the source bytes and changes nothing else |
| FileUtils.EnsureDirectoryExists | composeApp/src/jvmMain/kotlin/org/crawkatt/mrpackinstaller/utils/FileUtils.kt:53-57 | does nothing for an existing path, otherwise creates the directories |
| FileUtils.EnsureDirectoryExistsEffect | composeApp/src/jvmMain/kotlin/org/crawkatt/mrpackinstaller/utils/FileUtils.kt:53-57 | on success the path exists; existing entries never change; new entries are directories on the way to the path; a second call changes nothing |
| FileUtils.DeleteFileSafely | composeApp/src/jvmMain/kotlin/org/crawkatt/mrpackinstaller/utils/FileUtils.kt:59-65 | `deleteIfExists` with its exception turned into a failure result |
| FileUtils.DeleteFileSafelyEffect | composeApp/src/jvmMain/kotlin/org/crawkatt/mrpackinstaller/utils/FileUtils.kt:59-65 | reports true exactly when the entry was there and is gone; then only that entry is removed, and otherwise nothing changes |
| FileService.CleanModsFolder | composeApp/src/jvmMain/kotlin/org/crawkatt/mrpackinstaller/services/FileService.kt:40-60 | the deletion loop over the `.jar` candidates, in any order, ends in the state its specification describes |
| FileService.CleanModsFolderEffect | composeApp/src/jvmMain/kotlin/org/crawkatt/mrpackinstaller/services/FileService.kt:49-58 | with a mods folder present, cleaning succeeds; every `.jar` file left directly inside is locked; everything else is untouched; nothing is added |
| FileService.CleanModsFolderCreatesMissingFolder | composeApp/src/jvmMain/kotlin/org/crawkatt/mrpackinstaller/services/FileService.kt:44-47 | a missing mods folder is created, the call succeeds, and no existing entry changes |
| FileService.CleanModsFolderKeepsDirectories | composeApp/src/jvmMain/kotlin/org/crawkatt/mrpackinstaller/services/FileService.kt:49-58 | cleaning never removes or replaces a directory |
| FileService.EnsureMinecraftDirectoryStructure | composeApp/src/jvmMain/kotlin/org/crawkatt/mrpackinstaller/services/FileService.kt:62-75 | the loop over `mods`, `config`, `resourcepacks`, `shaderpacks` stops at the first failure, as its specification does |
| FileService.EnsureFromEffect | composeApp/src/jvmMain/kotlin/org/crawkatt/mrpackinstaller/services/FileService.kt:62-75 | from any position on, success means every remaining folder exists; existing entries never change; new ones are directories on the way to a required folder |
| FileService.EnsureStructureEffect | composeApp/src/jvmMain/kotlin/org/crawkatt/mrpackinstaller/services/FileService.kt:62-75 | after success the four folders exist, nothing existing changed, and a second call changes nothing |
| FileService.EnsureStructureMakesDirectories | composeApp/src/jvmMain/kotlin/org/crawkatt/mrpackinstaller/services/FileService.kt:64-73 | when none of the four is a regular file, success leaves each of them a directory |
| DownloadService.DownloadFile | composeApp/src/jvmMain/kotlin/org/crawkatt/mrpackinstaller/services/DownloadService.kt:21-42 | fails on an unreachable server or a status other than 200; otherwise ensures the parent folder and writes the body; a body that breaks off leaves the bytes received at the target and fails, as its specification describes |
| DownloadService.WriteTargetKeepsDirectories | composeApp/src/jvmMain/kotlin/org/crawkatt/mrpackinstaller/services/DownloadService.kt:29-40 | writing the target keeps every directory, and a successful write leaves the bytes at the target |
| DownloadService.WriteTargetKeepsWellFormed | composeApp/src/jvmMain/kotlin/org/crawkatt/mrpackinstaller/services/DownloadService.kt:29-40 | writing the target keeps the filesystem a tree whose files lie inside directories |
| DownloadService.FailedDownloadLeavesPrefix | composeApp/src/jvmMain/kotlin/org/crawkatt/mrpackinstaller/services/DownloadService.kt:21-42 | a failed download leaves at the target what was there, or the bytes received before the body broke off; a break after the target was opened always leaves them |
| DownloadService.DownloadFileKeepsDirectories | composeApp/src/jvmMain/kotlin/org/crawkatt/mrpackinstaller/services/DownloadService.kt:21-42 | a download keeps every directory, and a successful one leaves a regular file at the target |
| DownloadService.DownloadFileKeepsWellFormed | composeApp/src/jvmMain/kotlin/org/crawkatt/mrpackinstaller/services/DownloadService.kt:21-42 | a download keeps the filesystem a tree whose files lie inside directories |
| DownloadService.DownloadFileTouchesOnlyTarget | composeApp/src/jvmMain/kotlin/org/crawkatt/mrpackinstaller/services/DownloadService.kt:21-42 | for a plain target, no plain path other than the target and the folders above it changes |
| DownloadService.DownloadAndVerifyModFile | composeApp/src/jvmMain/kotlin/org/crawkatt/mrpackinstaller/services/DownloadService.kt:44-55 | downloads to `minecraftPath/path`, checks the hash, and deletes the file on a mismatch; a broken transfer fails before the check, as its specification describes |
| DownloadService.DownloadAndVerifyEffect | composeApp/src/jvmMain/kotlin/org/crawkatt/mrpackinstaller/services/DownloadService.kt:44-55 | a mod download succeeds exactly when the server answers 200, the file is written and the hex SHA-1 of the body equals the expected hash; then the target holds the body |
| DownloadService.RejectedDownloadIsDeleted | composeApp/src/jvmMain/kotlin/org/crawkatt/mrpackinstaller/services/DownloadService.kt:49-53 | a written file that fails the check is gone afterwards unless it is locked |
| DownloadService.BrokenModDownloadIsKept | composeApp/src/jvmMain/kotlin/org/crawkatt/mrpackinstaller/services/DownloadService.kt:44-55 | a body that breaks off fails the mod before the hash check, and the truncated file stays at the target |
| DownloadService.DownloadAndVerifyKeepsDirectories | composeApp/src/jvmMain/kotlin/org/crawkatt/mrpackinstaller/services/DownloadService.kt:44-55 | downloading a mod never removes or replaces a directory |
| ModpackVersionService.LedgerPath | composeApp/src/jvmMain/kotlin/org/crawkatt/mrpackinstaller/services/ModpackVersionService.kt:20 | the ledger is the entry `.mrpack_version.json` directly inside the Minecraft folder |
| ModpackVersionService.ModUrlListIsSet | composeApp/src/jvmMain/kotlin/org/crawkatt/mrpackinstaller/services/ModpackVersionService.kt:87-104 | the collected list holds each qualifying `mods/` entry's first download URL exactly once, and nothing else |
| ModpackVersionService.ExtractModsList | composeApp/src/jvmMain/kotlin/org/crawkatt/mrpackinstaller/services/ModpackVersionService.kt:87-104 | the loop over `files` adds the first download URL of each entry whose `path` starts with `mods/` and whose `downloads` is a non-empty array, keeping insertion order and skipping repeats |
| ModpackVersionService.SaveInstalledVersion | composeApp/src/jvmMain/kotlin/org/crawkatt/mrpackinstaller/services/ModpackVersionService.kt:70-85 | the ledger is replaced by the serialized record of name, version, Minecraft version, loader, time and mod URLs |
| ModpackVersionService.SaveTouchesOnlyLedger | composeApp/src/jvmMain/kotlin/org/crawkatt/mrpackinstaller/services/ModpackVersionService.kt:70-85 | saving changes no path but the ledger, and a failed save changes nothing |
| ModpackVersionService.CompareVersions | composeApp/src/jvmMain/kotlin/org/crawkatt/mrpackinstaller/services/ModpackVersionService.kt:19-68 | reads and parses the ledger and compares it with the offered modpack, as its specification describes |
| ModpackVersionService.NoLedger | composeApp/src/jvmMain/kotlin/org/crawkatt/mrpackinstaller/services/ModpackVersionService.kt:22-30 | without a ledger: success, not installed, no update, no installed version, available version is the offered one, mods unchanged |
| ModpackVersionService.MalformedLedgerFails | composeApp/src/jvmMain/kotlin/org/crawkatt/mrpackinstaller/services/ModpackVersionService.kt:32-67 | a ledger that cannot be read or parsed makes `compareVersions` fail, and `getInstalledModpackInfo` gives a failure, not null |
| ModpackVersionService.NoIndexNoModsChange | composeApp/src/jvmMain/kotlin/org/crawkatt/mrpackinstaller/services/ModpackVersionService.kt:38-42 | without a new index the mods never count as changed, and an update is needed exactly when the stored version or name differs |
| ModpackVersionService.SaveThenCompare | composeApp/src/jvmMain/kotlin/org/crawkatt/mrpackinstaller/services/ModpackVersionService.kt:19-85 | after saving one modpack, comparing any offer gives: installed; the saved version; mods changed exactly when the offered URL set differs; update needed exactly when version, name or mods differ |
| ModpackVersionService.SaveThenCompareSame | composeApp/src/jvmMain/kotlin/org/crawkatt/mrpackinstaller/services/ModpackVersionService.kt:19-85 | saving then comparing the same modpack gives installed, up to date, mods unchanged |
| ModpackVersionService.GetInstalledModpackInfo | composeApp/src/jvmMain/kotlin/org/crawkatt/mrpackinstaller/services/ModpackVersionService.kt:106-124 | null exactly when there is no ledger; a successful read has no loader type, no size and no summary |
| ModpackVersionService.SaveThenGetInstalled | composeApp/src/jvmMain/kotlin/org/crawkatt/mrpackinstaller/services/ModpackVersionService.kt:106-124 | after saving, the installed info has the saved name, version, Minecraft version and loader, and as mod count the number of distinct mod URLs |
| ModpackService.ReadZipEntry | composeApp/src/jvmMain/kotlin/org/crawkatt/mrpackinstaller/services/ModpackService.kt:139-148 | the 1024-byte read loop returns the entry's bytes, all chunks concatenated in order |
| ModpackService.FirstNamed | composeApp/src/jvmMain/kotlin/org/crawkatt/mrpackinstaller/services/ModpackService.kt:20-28 | the position found is the first entry with the name, and none means no entry has it |
| ModpackService.LoadModpackInfo | composeApp/src/jvmMain/kotlin/org/crawkatt/mrpackinstaller/services/ModpackService.kt:17-33 | the scan stops at the first `modrinth.index.json` and reads it, as its specification describes |
| ModpackService.LoadModpackInfoOutcome | composeApp/src/jvmMain/kotlin/org/crawkatt/mrpackinstaller/services/ModpackService.kt:17-33 | without an index entry loading fails, also for an empty (non-ZIP) stream; a success comes from the first index entry, parsed, with the service's defaults |
| ModpackService.DetermineLoaderFollowsPriority | composeApp/src/jvmMain/kotlin/org/crawkatt/mrpackinstaller/services/ModpackService.kt:110-137 | the loader is the first present key of forge, neoforge, fabric-loader, quilt-loader, with the key's text as version and "Label: version" as display; with none present, NONE, "" and the default |
| ModpackService.NullLoaderKeyStillCounts | composeApp/src/jvmMain/kotlin/org/crawkatt/mrpackinstaller/services/ModpackService.kt:117-121 | a `forge` key holding null still selects Forge (version "null"), ahead of a present fabric-loader |
| ModpackService.ParseModpackInfo | composeApp/src/jvmMain/kotlin/org/crawkatt/mrpackinstaller/services/ModpackService.kt:83-108 | the summing loop over `files` yields the interpretation of the manifest |
| ModpackService.ModpackInfoDefaults | composeApp/src/jvmMain/kotlin/org/crawkatt/mrpackinstaller/services/ModpackService.kt:97-107 | absent or null name, versionId, summary and Minecraft version take the given defaults; a text name or versionId is taken as it is |
| ModpackService.TotalSizeIsSum | composeApp/src/jvmMain/kotlin/org/crawkatt/mrpackinstaller/services/ModpackService.kt:84-92 | the total size is the sum of `fileSize` when it fits a `Long`, and 0 without an array |
| ModpackService.ParseModFiles | composeApp/src/jvmMain/kotlin/org/crawkatt/mrpackinstaller/services/ModpackService.kt:62-81 | the `forEach` loop builds the list of downloadable mod files |
| ModpackService.SelectedPositionsExact | composeApp/src/jvmMain/kotlin/org/crawkatt/mrpackinstaller/services/ModpackService.kt:67-79 | the selected positions increase, each holds an entry with a non-empty `downloads` array, and every such entry is selected |
| ModpackService.ModFilesAreSelection | composeApp/src/jvmMain/kotlin/org/crawkatt/mrpackinstaller/services/ModpackService.kt:62-81 | the mod files are, in manifest order, exactly the entries with downloads, each with its first download as URL |
| ModpackService.ModFilesFollowSelection | composeApp/src/jvmMain/kotlin/org/crawkatt/mrpackinstaller/services/ModpackService.kt:62-81 | the k-th mod file is built from the k-th selected entry |
| ModpackService.ModFilesWithinModCount | composeApp/src/jvmMain/kotlin/org/crawkatt/mrpackinstaller/services/ModpackService.kt:62-85 | there are never more mod files than the reported mod count |
| ModpackService.ExtractEntry | composeApp/src/jvmMain/kotlin/org/crawkatt/mrpackinstaller/services/ModpackService.kt:40-53 | ensures the parent folder, opens the target and copies the entry in 1024-byte reads, as its specification describes |
| ModpackService.ExtractIncludedFiles | composeApp/src/jvmMain/kotlin/org/crawkatt/mrpackinstaller/services/ModpackService.kt:35-60 | the entry loop copies each included entry and stops at the first failure; a truncated stream fails at its end |
| ModpackService.ExtractEntryEffect | composeApp/src/jvmMain/kotlin/org/crawkatt/mrpackinstaller/services/ModpackService.kt:43-53 | an entry with a plain target changes no other plain path than its target and the folders above it, and on success the target holds the entry's bytes |
| ModpackService.ExtractKeeps | composeApp/src/jvmMain/kotlin/org/crawkatt/mrpackinstaller/services/ModpackService.kt:35-60 | with plain targets, an existing plain entry that no included entry targets keeps its content |
| ModpackService.ExtractLeavesOthersAlone | composeApp/src/jvmMain/kotlin/org/crawkatt/mrpackinstaller/services/ModpackService.kt:35-60 | with plain targets, a plain path on the way to no included target stays as it was, whatever the outcome, so excluded entries are never written |
| ModpackService.ExtractWritesLastCopy | composeApp/src/jvmMain/kotlin/org/crawkatt/mrpackinstaller/services/ModpackService.kt:35-60 | with plain targets, after a successful extraction each target holds the bytes of the last included entry aimed at it |
| ModpackService.ExtractEntryKeepsWellFormed | composeApp/src/jvmMain/kotlin/org/crawkatt/mrpackinstaller/services/ModpackService.kt:43-53 | writing one entry keeps the filesystem a tree |
| ModpackService.ExtractKeepsWellFormed | composeApp/src/jvmMain/kotlin/org/crawkatt/mrpackinstaller/services/ModpackService.kt:35-60 | extraction keeps the filesystem a tree |
| ModpackService.ExtractEntryKeepsDirectories | composeApp/src/jvmMain/kotlin/org/crawkatt/mrpackinstaller/services/ModpackService.kt:43-53 | writing one entry never removes or replaces a directory |
| ModpackService.ExtractFromKeepsDirectories | composeApp/src/jvmMain/kotlin/org/crawkatt/mrpackinstaller/services/ModpackService.kt:35-60 | extraction never removes or replaces a directory |
| LoaderInstallerService.Caught | composeApp/src/jvmMain/kotlin/org/crawkatt/mrpackinstaller/services/LoaderInstallerService.kt:54-56 | `runCatching` around a call succeeds exactly when the call returned success |
| LoaderInstallerService.InstallWithInstaller | composeApp/src/jvmMain/kotlin/org/crawkatt/mrpackinstaller/services/LoaderInstallerService.kt:75-107 | creates the temporary folder, downloads and runs the installer, and removes the folder, as its specification describes |
| LoaderInstallerService.InstallerSucceedsIff | composeApp/src/jvmMain/kotlin/org/crawkatt/mrpackinstaller/services/LoaderInstallerService.kt:75-107 | an installer run succeeds exactly when the folder is made, the download succeeds and the process exits with 0; then the effects are folder, download, `java -jar <installer> args`, removal |
| LoaderInstallerService.CleanupAlwaysRuns | composeApp/src/jvmMain/kotlin/org/crawkatt/mrpackinstaller/services/LoaderInstallerService.kt:81-106 | only a failure to make the folder escapes; once made, the folder's removal is the last effect, on success and failure alike |
| LoaderInstallerService.InstallFabric | composeApp/src/jvmMain/kotlin/org/crawkatt/mrpackinstaller/services/LoaderInstallerService.kt:40-58 | the first attempt targets the launcher folder, and a returned failure is retried once with the Minecraft folder, as its specification describes |
| LoaderInstallerService.FabricRetriesOnce | composeApp/src/jvmMain/kotlin/org/crawkatt/mrpackinstaller/services/LoaderInstallerService.kt:53-57 | a second attempt happens exactly when the first returned a failure, and its result is then Fabric's; an exception in the first attempt escapes unchanged; Fabric fails only if both attempts failed |
| LoaderInstallerService.FabricStartsWithTemp | composeApp/src/jvmMain/kotlin/org/crawkatt/mrpackinstaller/services/LoaderInstallerService.kt:40-58 | Fabric's first effect is its `fabric_installer` temporary folder, and it only extends the record |
| LoaderInstallerService.LauncherDirIsParent | composeApp/src/jvmMain/kotlin/org/crawkatt/mrpackinstaller/services/LoaderInstallerService.kt:42 | the first Fabric target is the Minecraft folder's parent, or the folder itself when it has none |
| LoaderInstallerService.InstallLoader | composeApp/src/jvmMain/kotlin/org/crawkatt/mrpackinstaller/services/LoaderInstallerService.kt:12-20 | dispatches on the loader type to the four installers, as its specification describes |
| LoaderInstallerService.NoLoaderDoesNothing | composeApp/src/jvmMain/kotlin/org/crawkatt/mrpackinstaller/services/LoaderInstallerService.kt:18 | NONE succeeds without any effect |
| LoaderInstallerService.NeoForgeIgnoresMinecraftVersion | composeApp/src/jvmMain/kotlin/org/crawkatt/mrpackinstaller/services/LoaderInstallerService.kt:31-38 | NeoForge's install does not depend on the Minecraft version |
| LoaderInstallerService.TempPrefixes | composeApp/src/jvmMain/kotlin/org/crawkatt/mrpackinstaller/services/LoaderInstallerService.kt:81 | the temporary folders are `forge_installer`, `neoforge_installer`, `fabric_installer`, `quilt_installer` |
| LoaderInstallerService.LoaderCommands | composeApp/src/jvmMain/kotlin/org/crawkatt/mrpackinstaller/services/LoaderInstallerService.kt:12-86 | each loader but NONE makes its own temporary folder, downloads its installer URL into `<Name>-installer.jar` there and runs `java -jar` on it with its arguments, as the per-loader table of prefix, jar, URL and arguments gives them |
| LoaderInstallerService.ForgeRunsInstaller | composeApp/src/jvmMain/kotlin/org/crawkatt/mrpackinstaller/services/LoaderInstallerService.kt:22-29 | Forge uses `forge_installer`, the Maven URL built from the Minecraft and Forge versions, and `--installClient <Minecraft folder>` |
| LoaderInstallerService.NeoForgeRunsInstaller | composeApp/src/jvmMain/kotlin/org/crawkatt/mrpackinstaller/services/LoaderInstallerService.kt:31-38 | NeoForge uses `neoforge_installer`, the URL built from the NeoForge version only, and `--installClient <Minecraft folder>` |
| LoaderInstallerService.FabricRunsInstaller | composeApp/src/jvmMain/kotlin/org/crawkatt/mrpackinstaller/services/LoaderInstallerService.kt:40-58 | Fabric's first attempt uses `fabric_installer`, installer 1.0.1 and `client -mcversion <mc> -loader <v> -dir <launcher folder>` |
| LoaderInstallerService.QuiltRunsInstaller | composeApp/src/jvmMain/kotlin/org/crawkatt/mrpackinstaller/services/LoaderInstallerService.kt:60-73 | Quilt uses `quilt_installer`, installer 0.9.1 and `install client <mc> <v> --install-dir=<Minecraft folder> --no-profile` |
| LoaderInstallerService.InstallerEffects | composeApp/src/jvmMain/kotlin/org/crawkatt/mrpackinstaller/services/LoaderInstallerService.kt:81-90 | one installer run begins with the temporary folder, then the download into it, then the `java -jar` command |
| LoaderInstallerService.FabricExtendsFirstAttempt | composeApp/src/jvmMain/kotlin/org/crawkatt/mrpackinstaller/services/LoaderInstallerService.kt:53-57 | Fabric's effects begin with those of its first attempt |
| ViewModel.LoaderTypeClassification | composeApp/src/jvmMain/kotlin/org/crawkatt/mrpackinstaller/ui/ModpackInstallerViewModel.kt:106-114 | Forge exactly for names with "forge" and without "neo"; NeoForge exactly for names with "neoforge"; Fabric and NONE exactly when the earlier tests fail and "fabric", respectively none of the words, occurs |
| ViewModel.LoaderTypeIgnoresCase | composeApp/src/jvmMain/kotlin/org/crawkatt/mrpackinstaller/ui/ModpackInstallerViewModel.kt:106-114 | upper-casing a loader name does not change its classification |
| ViewModel.ApiInfoDrivesInstall | composeApp/src/jvmMain/kotlin/org/crawkatt/mrpackinstaller/ui/ModpackInstallerViewModel.kt:72-82 | a server-offered modpack is installed with the loader type classified from its loader name and the server's loader and Minecraft versions; any description agreeing on those three gives the same install |
| ViewModel.ModpackInstallerViewModel.constructor | composeApp/src/jvmMain/kotlin/org/crawkatt/mrpackinstaller/ui/ModpackInstallerViewModel.kt:38-49 | starts with the detected folder, nothing selected, API mode, and the first server request under way |
| ViewModel.ModpackInstallerViewModel.DetectMinecraftPath | composeApp/src/jvmMain/kotlin/org/crawkatt/mrpackinstaller/ui/ModpackInstallerViewModel.kt:43-49 | a detected folder is kept; otherwise the folder stays and a warning is shown |
| ViewModel.ModpackInstallerViewModel.LoadModpackInfo | composeApp/src/jvmMain/kotlin/org/crawkatt/mrpackinstaller/ui/ModpackInstallerViewModel.kt:59-66 | a request starts exactly in API mode with none in flight; otherwise nothing changes |
| ViewModel.ModpackInstallerViewModel.OnModpackInfoFetched | composeApp/src/jvmMain/kotlin/org/crawkatt/mrpackinstaller/ui/ModpackInstallerViewModel.kt:66-103 | an offered modpack becomes the description; an answer without one or a failed request leaves none; the request is over in every case |
| ViewModel.ModpackInstallerViewModel.SwitchInstallMode | composeApp/src/jvmMain/kotlin/org/crawkatt/mrpackinstaller/ui/ModpackInstallerViewModel.kt:51-57 | sets the mode, clears the modpack, and in API mode starts a request unless one is in flight |
| ViewModel.ModpackInstallerViewModel.SelectMrpackFile | composeApp/src/jvmMain/kotlin/org/crawkatt/mrpackinstaller/ui/ModpackInstallerViewModel.kt:116-121 | a chosen file is kept and loaded at once; no choice changes nothing |
| ViewModel.ModpackInstallerViewModel.LoadLocalModpackInfo | composeApp/src/jvmMain/kotlin/org/crawkatt/mrpackinstaller/ui/ModpackInstallerViewModel.kt:129-144 | a loaded file sets description and index; a failure clears both and shows the error |
| ViewModel.ModpackInstallerViewModel.SelectMinecraftPath | composeApp/src/jvmMain/kotlin/org/crawkatt/mrpackinstaller/ui/ModpackInstallerViewModel.kt:123-127 | a chosen folder replaces the current one |
| ViewModel.ModpackInstallerViewModel.Clear | composeApp/src/jvmMain/kotlin/org/crawkatt/mrpackinstaller/ui/ModpackInstallerViewModel.kt:261-268 | forgets file, answer, index, description, status and progress, after which `canClear` is false |
| ViewModel.ModpackInstallerViewModel.CanInstallPassesGuards | composeApp/src/jvmMain/kotlin/org/crawkatt/mrpackinstaller/ui/ModpackInstallerViewModel.kt:274-282 | an enabled install button means a folder that exists, a description, no install running, a selected file in local mode, and in API mode a modpack step that ends only with the download's or the archive's own error or does what unpacking does |
| ViewModel.ModpackInstallerViewModel.InstallLoaderStep | composeApp/src/jvmMain/kotlin/org/crawkatt/mrpackinstaller/ui/ModpackInstallerViewModel.kt:214-233 | NONE skips the loader; an installer's failure or exception becomes the step's failure |
| ViewModel.ModpackInstallerViewModel.DownloadAndInstallMods | composeApp/src/jvmMain/kotlin/org/crawkatt/mrpackinstaller/ui/ModpackInstallerViewModel.kt:240-259 | downloads the index's mod files one by one with the progress set before each, and an empty list is no failure |
| ViewModel.ModpackInstallerViewModel.DownloadMods | composeApp/src/jvmMain/kotlin/org/crawkatt/mrpackinstaller/ui/ModpackInstallerViewModel.kt:252-258 | the download loop stops at the first failed mod, as its specification describes |
| ViewModel.DownloadModsVerified | composeApp/src/jvmMain/kotlin/org/crawkatt/mrpackinstaller/ui/ModpackInstallerViewModel.kt:252-258 | when the loop succeeds, every mod was answered with 200 and its body's hex SHA-1 is the expected hash |
| ViewModel.LastModFillsProgress | composeApp/src/jvmMain/kotlin/org/crawkatt/mrpackinstaller/ui/ModpackInstallerViewModel.kt:254 | the progress while the last mod downloads is 1 |
| ViewModel.DownloadModsFillProgress | composeApp/src/jvmMain/kotlin/org/crawkatt/mrpackinstaller/ui/ModpackInstallerViewModel.kt:252-258 | a successful run over at least one mod leaves the progress at 1 |
| ViewModel.DownloadModsKeepDirectories | composeApp/src/jvmMain/kotlin/org/crawkatt/mrpackinstaller/ui/ModpackInstallerViewModel.kt:252-258 | downloading mods never removes or replaces a directory |
| ViewModel.ModpackInstallerViewModel.Unpack | composeApp/src/jvmMain/kotlin/org/crawkatt/mrpackinstaller/ui/ModpackInstallerViewModel.kt:196-201 | extract, clean, download, each after the one before succeeded |
| ViewModel.UnpackKeepsDirectories | composeApp/src/jvmMain/kotlin/org/crawkatt/mrpackinstaller/ui/ModpackInstallerViewModel.kt:196-201 | extracting, cleaning and downloading never remove or replace a directory |
| ViewModel.ModpackInstallerViewModel.InstallPack | composeApp/src/jvmMain/kotlin/org/crawkatt/mrpackinstaller/ui/ModpackInstallerViewModel.kt:160-202 | in API mode: needs an answer offering a modpack, the downloaded pack and its index; in local mode: needs the selected file and index |
| ViewModel.PackKeepsDirectories | composeApp/src/jvmMain/kotlin/org/crawkatt/mrpackinstaller/ui/ModpackInstallerViewModel.kt:162-202 | the modpack step never removes or replaces a directory |
| ViewModel.ModpackInstallerViewModel.RunPipeline | composeApp/src/jvmMain/kotlin/org/crawkatt/mrpackinstaller/ui/ModpackInstallerViewModel.kt:154-202 | folders, then loader, then modpack, each after the one before succeeded |
| ViewModel.ModpackInstallerViewModel.Install | composeApp/src/jvmMain/kotlin/org/crawkatt/mrpackinstaller/ui/ModpackInstallerViewModel.kt:150-211 | the pipeline's outcome, files, effects and index; the progress is 1 on success; the status reports the outcome; no install runs afterwards |
| ViewModel.ModpackInstallerViewModel.InstallModpack | composeApp/src/jvmMain/kotlin/org/crawkatt/mrpackinstaller/ui/ModpackInstallerViewModel.kt:146-212 | without a Minecraft folder or description it fails and changes nothing; otherwise as `Install` |
| ViewModel.InstallNodes | composeApp/src/jvmMain/kotlin/org/crawkatt/mrpackinstaller/ui/ModpackInstallerViewModel.kt:154-202 | the resulting files are the modpack step's when folders and loader succeeded, the folder step's otherwise |
| ViewModel.InstallKeepsDirectories | composeApp/src/jvmMain/kotlin/org/crawkatt/mrpackinstaller/ui/ModpackInstallerViewModel.kt:154-205 | an install never removes or replaces a directory |
| ViewModel.InstallLeavesStructure | composeApp/src/jvmMain/kotlin/org/crawkatt/mrpackinstaller/ui/ModpackInstallerViewModel.kt:155-205 | after a successful install the four required folders are directories, unless one was a regular file before |
| ViewModel.InstallSucceeded | composeApp/src/jvmMain/kotlin/org/crawkatt/mrpackinstaller/ui/ModpackInstallerViewModel.kt:154-205 | success means the folders were made, the loader installed, and the server's modpack downloaded and read (API) or a file and its index selected (local); the kept index is the pack's |
| ViewModel.InstallStopsWhenFoldersFail | composeApp/src/jvmMain/kotlin/org/crawkatt/mrpackinstaller/ui/ModpackInstallerViewModel.kt:156 | when the folders cannot be made, no installer runs, the progress is 0 and the index stays |
| ViewModel.InstallStopsWhenLoaderFails | composeApp/src/jvmMain/kotlin/org/crawkatt/mrpackinstaller/ui/ModpackInstallerViewModel.kt:157-160 | when the loader fails, nothing of the modpack is written, the progress is 0.1 and the index stays |
| ViewModel.InstallTraceIsLoaders | composeApp/src/jvmMain/kotlin/org/crawkatt/mrpackinstaller/ui/ModpackInstallerViewModel.kt:154-205 | the loader installers are all the pipeline does to the machine, and NONE does nothing to it |
| App.App.constructor | composeApp/src/jvmMain/kotlin/org/crawkatt/mrpackinstaller/App.kt:68-86 | starts with the detected folder, or with a warning when there is none, and nothing selected |
| App.App.SelectMrpackFile | composeApp/src/jvmMain/kotlin/org/crawkatt/mrpackinstaller/App.kt:88-99 | a chosen file is kept and read; a failed read keeps the old description and index |
| App.App.SelectMinecraftPath | composeApp/src/jvmMain/kotlin/org/crawkatt/mrpackinstaller/App.kt:101-112 | a chosen folder replaces the current one |
| App.App.LoadModpackInfo | composeApp/src/jvmMain/kotlin/org/crawkatt/mrpackinstaller/App.kt:114-142 | fails without a selected file; a success sets description and index; a failure keeps the old ones |
| App.AppLoadAgreesWithService | composeApp/src/jvmMain/kotlin/org/crawkatt/mrpackinstaller/App.kt:114-142 | the older reader succeeds exactly when the service does, with the same index, loader, mod count and size; it fails with the same error except a missing index |
| App.AppDefaultsApplied | composeApp/src/jvmMain/kotlin/org/crawkatt/mrpackinstaller/App.kt:144-208 | absent fields take the Spanish defaults, and a manifest without dependencies has no loader |
| App.App.InstallWithInstaller | composeApp/src/jvmMain/kotlin/org/crawkatt/mrpackinstaller/App.kt:301-337 | folder, download, run and an unguarded removal, as its specification describes |
| App.App.InstallLoader | composeApp/src/jvmMain/kotlin/org/crawkatt/mrpackinstaller/App.kt:233-299 | fails without a description, skips NONE, and keeps only escaping exceptions from the installers |
| App.App.InstallFabric | composeApp/src/jvmMain/kotlin/org/crawkatt/mrpackinstaller/App.kt:270-286 | Fabric with one retry, whose returned result the caller drops |
| App.AppLoaderFailuresIgnored | composeApp/src/jvmMain/kotlin/org/crawkatt/mrpackinstaller/App.kt:233-250 | when temporary folders can be made and removed, the loader step succeeds whatever the downloads and exit codes |
| App.AppLoaderExceptionsEscape | composeApp/src/jvmMain/kotlin/org/crawkatt/mrpackinstaller/App.kt:301-337 | a temporary folder that cannot be made stops the loader step with that error |
| App.App.CleanModsFolderStep | composeApp/src/jvmMain/kotlin/org/crawkatt/mrpackinstaller/App.kt:361-383 | cleans the mods folder of the current Minecraft folder, doing nothing without one |
| App.ExtractEntry | composeApp/src/jvmMain/kotlin/org/crawkatt/mrpackinstaller/App.kt:392-406 | one included entry: fails on a null folder, creates the parent directories and copies the bytes |
| App.ExtractEntries | composeApp/src/jvmMain/kotlin/org/crawkatt/mrpackinstaller/App.kt:388-411 | the entry loop stops at the first failure, as its specification describes |
| App.App.ExtractIncludedFiles | composeApp/src/jvmMain/kotlin/org/crawkatt/mrpackinstaller/App.kt:385-412 | nothing without a selected file; otherwise the entry loop |
| App.AppExtractEntryAgrees | composeApp/src/jvmMain/kotlin/org/crawkatt/mrpackinstaller/App.kt:385-412 | on a well-formed filesystem one entry is written exactly as the service writes it |
| App.AppExtractAgreesWithService | composeApp/src/jvmMain/kotlin/org/crawkatt/mrpackinstaller/App.kt:385-412 | on a well-formed filesystem the older extraction gives the service's files and succeeds exactly when it does |
| App.App.DownloadAndVerifyFile | composeApp/src/jvmMain/kotlin/org/crawkatt/mrpackinstaller/App.kt:447-476 | creates the parent folder, fails on a status other than 200 and writes the body; a body that breaks off leaves the bytes received and fails before the hash check, as its specification describes |
| App.AppHashCheckNeverFails | composeApp/src/jvmMain/kotlin/org/crawkatt/mrpackinstaller/App.kt:447-476 | after a successful write hashing cannot fail, so the expected hash has no effect on a download |
| App.AppBrokenDownloadIsKept | composeApp/src/jvmMain/kotlin/org/crawkatt/mrpackinstaller/App.kt:461-470 | a body that breaks off fails the download, and once the target was opened the bytes received stay there |
| App.App.DownloadAndInstallMods | composeApp/src/jvmMain/kotlin/org/crawkatt/mrpackinstaller/App.kt:414-445 | fails without an index or without a `files` array; otherwise downloads the mod files in order |
| App.App.DownloadMods | composeApp/src/jvmMain/kotlin/org/crawkatt/mrpackinstaller/App.kt:437-444 | the download loop, progress set to the share of started mods before each |
| App.AppRequiresFilesArray | composeApp/src/jvmMain/kotlin/org/crawkatt/mrpackinstaller/App.kt:414-445 | an index without a `files` array is an error with nothing written, where the service reads it as no mods |
| App.AppDownloadFillsProgress | composeApp/src/jvmMain/kotlin/org/crawkatt/mrpackinstaller/App.kt:437-444 | a successful run over at least one mod leaves the progress at 1 |
| App.App.InstallModpack | composeApp/src/jvmMain/kotlin/org/crawkatt/mrpackinstaller/App.kt:210-231 | loader, clean, extract, download; the status reports the outcome; no install runs afterwards |
| App.AppInstallStepOrder | composeApp/src/jvmMain/kotlin/org/crawkatt/mrpackinstaller/App.kt:210-231 | each step runs only after the one before succeeded; the first failure gives the outcome and the files at that point; success needs an index with a `files` array |
| App.AppInstallNeedsInfo | composeApp/src/jvmMain/kotlin/org/crawkatt/mrpackinstaller/App.kt:233-234 | without a description the install fails at once and changes nothing |
| App.App.Clear | composeApp/src/jvmMain/kotlin/org/crawkatt/mrpackinstaller/App.kt:500-506 | forgets file, index, description, status and progress |

## Left out

- FormatFileSize: sizes of 1024 bytes and more are formatted with floating-point logarithms and `%.1f`; the model gives None for them and covers only the integer branch.
- The Compose user interface, the window and `main`, and the file dialogs (`selectMrpackFile`, `selectMinecraftDirectory`). The user's choice is a parameter.
- `detectMinecraftPath` reads system properties and tests a path on the real disk. Its result is a constructor parameter.
- Coroutines. `ModpackInstallerViewModel.loadModpackInfo` is split into starting the request and `OnModpackInfoFetched`, its completion.
- HTTP (`createConnection`, the modpack API and its modpack download), ZIP decoding, Jackson parsing and serialization, SHA-1, the clock and process execution are oracles. They are not modelled.
- Jackson's `asLong` on text ignores leading and trailing spaces and the fallback through `double`. `asText` on floating-point numbers is not modelled exactly.
- Progress is a `real`, not a 32-bit float.
- The progress updates during the modpack download (`ModpackInstallerViewModel.kt:172-177`) are not modelled.
- Intermediate status messages, which the next step overwrites, and all `println` output are not modelled.
- The view-model's temporary `.mrpack` file is not modelled: neither its creation nor its deletion (`ModpackInstallerViewModel.kt:168,190`). The downloaded archive is given as a value.
- The installers' working folder lies outside the Minecraft folder. The installer's own `downloadFile` and `App.downloadFile` go through the machine oracle, not the modelled filesystem. So does `cleanupTempDirectory`'s walk.
- JDK exception messages are approximated. The message of a `!!` on null is "null". A path's text is "/" followed by its names joined by "/".
- Paths are sequences of names below the root, split on "/" only, as on Unix. A name that begins with "/" replaces the base, as `Path.resolve` does with an absolute path. Windows separators and drive letters are not modelled: the Windows folder `AppData\Roaming\.minecraft` that `App.kt:76` builds arrives as the names of its components.
- Paths are not normalised. `Path.resolve` keeps a "." or ".." component, and the operating system follows it when the file is opened, so an entry `overrides/../options.txt` or a mod path `../x.jar` writes outside the Minecraft folder. The model keeps such a component as a name, so its filesystem stands for the real one only on plain paths (no "." or ".." component). Where a lemma about what else changes depends on this, it requires plain paths; the other filesystem lemmas (for example EnsureDirectoryExistsEffect, SaveTouchesOnlyLedger, CleanModsFolderEffect) speak of the table's keys. Symbolic links are not modelled either.
- ExtractEntryEffect: stated only for an entry whose target is plain and only about plain paths, because a ".." component reaches a file the model keys under another name.
- ExtractKeeps: stated only for plain targets and a plain kept path; an entry `config/../mods/a.jar` overwrites `mods/a.jar` in the program.
- ExtractLeavesOthersAlone: stated only for plain targets and a plain path; an entry `overrides/../options.txt` changes a path outside the Minecraft folder in the program.
- ExtractWritesLastCopy: stated only for plain targets; two names that resolve to one file would be two keys.
- DownloadFileTouchesOnlyTarget: stated only for a plain target and plain paths, because a mod path with ".." is written outside the Minecraft folder in the program.
- The filesystem fails only when a regular file is in the way, a parent folder is missing, a directory is opened for writing, or a path is locked. Failures for permissions, a full disk or an I/O error are not modelled.
- CleanModsFolderCreatesMissingFolder: its unconditional success rests on `createDirectories` never failing for permissions, a full disk or an I/O error, which the filesystem leaves out.
- AppHashCheckNeverFails: hashing cannot fail only because reading a regular file never fails in the filesystem; on a real disk an I/O error while hashing takes the delete-and-throw branch of `App.kt:472-475`.
- DownloadFile: an exception opening the body's stream after the status arrived is modelled as a body broken off with nothing received, which leaves an empty target where the program leaves none.
- The order of the ledger's keys and the pretty-printer's layout belong to the serializer oracle.
- An error raised inside `Files.walk` itself, as opposed to a failed deletion, is not modelled.
- The duplicated `formatFileSize` in the view-model and in `App` delegates to, or repeats, the one in `FileUtils`, so it is not modelled separately.
