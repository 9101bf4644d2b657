/** The records shared by the services and the two front ends. */
module Models {
  import opened Long64

  /** The mod loader a modpack runs on; `NoLoader` is the `NONE` constant. */
  datatype LoaderType = Forge | Fabric | NeoForge | Quilt | NoLoader

  /** One downloadable file of the manifest's `files` array. */
  datatype ModFile = ModFile(path: string, downloadUrl: string, sha1: string, fileSize: Long)

  /** What the installer shows about a modpack. `modCount` is a Kotlin `Int`;
      every value the model computes for it is a manifest array size. */
  datatype ModpackInfo = ModpackInfo(
    name: string,
    version: string,
    summary: string,
    minecraftVersion: string,
    loader: string,
    loaderVersion: string,
    loaderType: LoaderType,
    modCount: int,
    totalSize: Long)

  /** Where the view-model takes the modpack from. */
  datatype InstallMode = LocalFile | ApiDownload

  /** The modpack description the server's `/info` endpoint returns. */
  datatype ApiModpackInfo = ApiModpackInfo(
    name: string,
    versionId: string,
    summary: string,
    minecraftVersion: string,
    loader: string,
    loaderVersion: string,
    modCount: int)

  /** The server's answer: whether a modpack is offered, what it is, and the
      size of its archive. */
  datatype ApiResponse = ApiResponse(available: bool, modpackInfo: ApiModpackInfo, fileSize: Long)
}
