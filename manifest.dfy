/**
 * The file manifest of a skin mod: one record per payload file, with the path it
 * takes under the game root. The same record is declared in modregistry.rs and in
 * skinextract.rs; it is declared once here.
 */
module Manifest {

  datatype ModFileType = PakFile | NativesFile | Other

  datatype ModFile = ModFile(
    relativePath: string,   // target path, relative to the game root
    originalPath: string,   // where the file sits inside the mod folder
    fileType: ModFileType,
    enabled: bool,
    sizeBytes: nat)

  /** The target paths a list of files claims. */
  function RelativePaths(files: seq<ModFile>): set<string>
  {
    set f | f in files :: f.relativePath
  }
}
