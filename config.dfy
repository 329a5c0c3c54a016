/**
 * config.rs: finding the game's root from its executable, and the user
 * configuration file `userconfig.json` in the app's config directory. JSON
 * encoding and decoding are parameters (`encode`, `decode`); the clock reading
 * that names a corrupt file's backup is the parameter `secs`.
 */
module Config {
  import opened Base
  import opened Strings
  import opened Paths
  import opened Disk

  datatype GameData = GameData(gameRootPath: string, gameExecutablePath: string)

  datatype ConfigError =
    | NotAFile(executablePath: string)
    | NoParent(executablePath: string)
    | ReachedRoot(executablePath: string)
    | NoParentName(parentPath: string)
    | NoGrandparentName(grandparentPath: string)
    | ConfigParseFailed
    | ConfigReadFailed(cause: IoError)
    | ConfigWriteFailed(cause: IoError)
    | CreateConfigDirFailed(cause: IoError)
    | DeleteFailed(cause: IoError)

  /** The disk after a step, and what the step produced or why it stopped. */
  datatype Outcome<T> = Outcome(fs: FileSystem, result: Result<T, ConfigError>)

  // ---------------------------------------------------------------------------
  // find_game_paths_from_exe
  // ---------------------------------------------------------------------------

  /** `p` with only its first `k` components. */
  function Prefix(p: Path, k: nat): Path
    requires k <= |p.parts|
  {
    Path(p.absolute, p.parts[..k])
  }

  /** A directory installed by Steam: it sits in `common`, which sits in `steamapps`. */
  predicate SteamLayout(dir: Path)
  {
    |dir.parts| >= 3 && dir.parts[|dir.parts| - 2] == "common" && dir.parts[|dir.parts| - 3] == "steamapps"
  }

  /**
   * The upward search from `current`: at each level the parent must have a name;
   * a parent named `common` whose own parent is named `steamapps` ends the search
   * with `current` as the game root; otherwise the search moves up one level.
   */
  function Search(current: Path, executablePath: string): Result<(Path, Path), ConfigError>
    decreases |current.parts|
  {
    match Parent(current)
    case None => Err(ReachedRoot(executablePath))
    case Some(parent) =>
      match FileName(parent)
      case None => Err(NoParentName(Render(parent)))
      case Some(parentName) =>
        var grandparent := Parent(parent).value;
        if parentName == "common" && FileName(grandparent).None? then Err(NoGrandparentName(Render(grandparent)))
        else if parentName == "common" && FileName(grandparent) == Some("steamapps") then Ok((current, grandparent))
        else Search(parent, executablePath)
  }

  /** `find_game_paths_from_exe`: the search starts at the executable's folder. */
  function FindGamePaths(fs: FileSystem, executablePath: string): Result<(Path, Path), ConfigError>
  {
    var executable := Parse(executablePath);
    if !IsFile(fs, executable) then Err(NotAFile(executablePath))
    else if Parent(executable).None? then Err(NoParent(executablePath))
    else Search(Parent(executable).value, executablePath)
  }

  /** No folder below the first `k` components of `start`, down to `start` itself, is laid out by Steam. */
  predicate NoSteamRootBelow(start: Path, k: nat)
  {
    forall j :: k < j <= |start.parts| ==> !SteamLayout(Prefix(start, j))
  }

  /**
   * `root` is the nearest folder, from `start` upwards, laid out by Steam, and
   * `steamapps` is its grandparent.
   */
  predicate NearestSteamRoot(start: Path, root: Path, steamapps: Path)
  {
    && |root.parts| <= |start.parts|
    && root == Prefix(start, |root.parts|)
    && SteamLayout(root)
    && steamapps == Prefix(start, |root.parts| - 2)
    && NoSteamRootBelow(start, |root.parts|)
  }

  /** No folder from `start` upwards is laid out by Steam. */
  predicate NoSteamRoot(start: Path)
  {
    forall j :: 0 <= j <= |start.parts| ==> !SteamLayout(Prefix(start, j))
  }

  /** The first components of `current` are those of its parent, below the last one. */
  lemma PrefixOfParent(current: Path, k: nat)
    requires current.parts != [] && k < |current.parts|
    ensures Prefix(Parent(current).value, k) == Prefix(current, k)
  {
  }

  /**
   * What the search finds: the nearest folder, from `current` upwards, laid out
   * by Steam, with its `steamapps` grandparent.
   */
  lemma {:induction false} SearchFindsNearest(current: Path, executablePath: string)
    decreases |current.parts|
    ensures Search(current, executablePath).Ok? ==>
              NearestSteamRoot(current, Search(current, executablePath).value.0, Search(current, executablePath).value.1)
  {
    var n := |current.parts|;
    var r := Search(current, executablePath);
    if n > 0 && r.Ok? {
      var parent := Parent(current).value;
      var grandparent := Parent(parent).value;
      if FileName(parent) == Some("common") && FileName(grandparent) == Some("steamapps") {
        assert current == Prefix(current, n);
        assert grandparent == Prefix(current, n - 2);
      } else {
        SearchFindsNearest(parent, executablePath);
        assert !SteamLayout(current);
        NearestLifts(current, r.value.0, r.value.1);
      }
    }
  }

  /** A root nearest from the parent is nearest from `current` too when `current` is not laid out by Steam. */
  lemma NearestLifts(current: Path, root: Path, steamapps: Path)
    requires current.parts != []
    requires NearestSteamRoot(Parent(current).value, root, steamapps) && !SteamLayout(current)
    ensures NearestSteamRoot(current, root, steamapps)
  {
    var n := |current.parts|;
    var k := |root.parts|;
    PrefixOfParent(current, k);
    PrefixOfParent(current, k - 2);
    forall j | k < j <= n
      ensures !SteamLayout(Prefix(current, j))
    {
      if j < n {
        PrefixOfParent(current, j);
      } else {
        assert Prefix(current, j) == current;
      }
    }
  }

  /** When no folder from `current` upwards is laid out by Steam, the search fails. */
  lemma {:induction false} SearchFailsWithoutRoot(current: Path, executablePath: string)
    decreases |current.parts|
    requires NoSteamRoot(current)
    ensures Search(current, executablePath).Err?
  {
    var n := |current.parts|;
    if n > 0 {
      var parent := Parent(current).value;
      assert !SteamLayout(current) by {
        assert Prefix(current, n) == current;
      }
      forall j | 0 <= j <= |parent.parts|
        ensures !SteamLayout(Prefix(parent, j))
      {
        PrefixOfParent(current, j);
      }
      SearchFailsWithoutRoot(parent, executablePath);
    }
  }

  /**
   * On success the game root is the executable's nearest ancestor folder laid
   * out by Steam (its parent is `common`, its grandparent `steamapps`) and the
   * second path is that grandparent; with no such ancestor the call fails, as
   * it does when the executable is not a file.
   */
  lemma FindGamePathsResult(fs: FileSystem, executablePath: string)
    ensures !IsFile(fs, Parse(executablePath)) ==> FindGamePaths(fs, executablePath) == Err(NotAFile(executablePath))
    ensures FindGamePaths(fs, executablePath).Ok? ==>
              && Parse(executablePath).parts != []
              && NearestSteamRoot(Parent(Parse(executablePath)).value,
                                  FindGamePaths(fs, executablePath).value.0, FindGamePaths(fs, executablePath).value.1)
    ensures Parse(executablePath).parts != [] && NoSteamRoot(Parent(Parse(executablePath)).value) ==>
              FindGamePaths(fs, executablePath).Err?
  {
    var exe := Parse(executablePath);
    if IsFile(fs, exe) && exe.parts != [] {
      SearchFindsNearest(Parent(exe).value, executablePath);
      if NoSteamRoot(Parent(exe).value) {
        SearchFailsWithoutRoot(Parent(exe).value, executablePath);
      }
    }
  }

  /** `find_game_paths_from_exe`, climbing one folder per iteration. */
  method FindGamePathsFromExe(fs: FileSystem, executablePath: string) returns (r: Result<(Path, Path), ConfigError>)
    ensures r == FindGamePaths(fs, executablePath)
  {
    var executable := Parse(executablePath);
    if !IsFile(fs, executable) {
      return Err(NotAFile(executablePath));
    }
    if executable.parts == [] {
      return Err(NoParent(executablePath));
    }
    var start := Parent(executable).value;
    var currentPath := start;
    while currentPath.parts != []
      invariant Search(currentPath, executablePath) == Search(start, executablePath)
      decreases |currentPath.parts|
    {
      var parentPath := Parent(currentPath).value;
      var parentDirName := FileName(parentPath);
      if parentDirName.None? {
        return Err(NoParentName(Render(parentPath)));
      }
      if parentDirName.value == "common" {
        var grandparentPath := Parent(parentPath).value;
        var grandparentDirName := FileName(grandparentPath);
        if grandparentDirName.None? {
          return Err(NoGrandparentName(Render(grandparentPath)));
        }
        if grandparentDirName.value == "steamapps" {
          return Ok((currentPath, grandparentPath));
        }
      }
      currentPath := parentPath;
    }
    return Err(ReachedRoot(executablePath));
  }

  /** `validate_game_installation`: the root found from the executable, with the executable as given. */
  function ValidateGameInstallation(fs: FileSystem, executablePath: string): (r: Result<GameData, ConfigError>)
    ensures r.Ok? <==> FindGamePaths(fs, executablePath).Ok?
    ensures r.Ok? ==> r.value == GameData(Render(FindGamePaths(fs, executablePath).value.0), executablePath)
  {
    match FindGamePaths(fs, executablePath)
    case Err(e) => Err(e)
    case Ok(found) => Ok(GameData(Render(found.0), executablePath))
  }

  // ---------------------------------------------------------------------------
  // userconfig.json
  // ---------------------------------------------------------------------------

  /** `config_dir.join("userconfig.json")`. */
  function ConfigPathOf(configDir: Path): Path
  {
    Path(configDir.absolute, configDir.parts + ["userconfig.json"])
  }

  /** Where a corrupt configuration is moved: `userconfig.json.corrupt-<secs>`, beside it. */
  function BackupPathOf(configPath: Path, secs: nat): Path
  {
    WithExtension(configPath, "json.corrupt-" + NatToString(secs))
  }

  /** The backup of the configuration file sits in the same directory, named `userconfig.json.corrupt-<secs>`. */
  lemma BackupName(configDir: Path, secs: nat)
    ensures BackupPathOf(ConfigPathOf(configDir), secs)
         == Path(configDir.absolute, configDir.parts + ["userconfig.json.corrupt-" + NatToString(secs)])
  {
    var name := "userconfig.json";
    assert name[10] == '.';
    assert forall k :: 10 < k < |name| ==> name[k] != '.';
    assert LastDot(name) == Some(10);
    assert FileStem(name) == "userconfig";
    var p := ConfigPathOf(configDir);
    assert p.parts[..|p.parts| - 1] == configDir.parts;
    assert FileName(p) == Some(name);
    assert "userconfig" + "." + ("json.corrupt-" + NatToString(secs)) == "userconfig.json.corrupt-" + NatToString(secs);
  }

  /**
   * `load_game_config`: a missing file is no configuration; a file that does not
   * decode is moved aside to its backup name (the move failing is only logged)
   * and the load fails.
   */
  function LoadConfig(fs: FileSystem, configDir: Path, decode: string -> Option<GameData>, secs: nat)
    : (r: Outcome<Option<GameData>>)
    ensures r.result.Ok? ==> r.fs == fs
    ensures r.result.Ok? && r.result.value.None? ==> !Exists(fs, ConfigPathOf(configDir))
    ensures r.result.Ok? && r.result.value.Some? ==>
              IsFile(fs, ConfigPathOf(configDir)) && decode(fs.entries[ConfigPathOf(configDir)].content) == r.result.value
  {
    var configPath := ConfigPathOf(configDir);
    match ReadFile(fs, configPath)
    case Ok(json) =>
      (match decode(json)
       case Some(data) => Outcome(fs, Ok(Some(data)))
       case None =>
         match Rename(fs, configPath, BackupPathOf(configPath, secs))
         case Ok(fs') => Outcome(fs', Err(ConfigParseFailed))
         case Err(_) => Outcome(fs, Err(ConfigParseFailed)))
    case Err(e) =>
      if e == NotFound then Outcome(fs, Ok(None)) else Outcome(fs, Err(ConfigReadFailed(e)))
  }

  /** `save_game_config`: the config directory is made, then the file written. */
  function SaveConfig(fs: FileSystem, configDir: Path, data: GameData, encode: GameData -> string): (r: Outcome<Unit>)
    ensures r.result.Ok? ==>
              IsFile(r.fs, ConfigPathOf(configDir)) && r.fs.entries[ConfigPathOf(configDir)].content == encode(data)
    ensures r.result.Ok? ==> forall q :: q != ConfigPathOf(configDir) && q in fs.entries ==>
              q in r.fs.entries && r.fs.entries[q] == fs.entries[q]
  {
    match CreateDirAll(fs, configDir)
    case Err(e) => Outcome(fs, Err(CreateConfigDirFailed(e)))
    case Ok(fs') =>
      match WriteFile(fs', ConfigPathOf(configDir), encode(data))
      case Err(e) => Outcome(fs', Err(ConfigWriteFailed(e)))
      case Ok(fs'') => Outcome(fs'', Ok(Unit))
  }

  /** `delete_config`: a file already gone is not an error. */
  function DeleteConfig(fs: FileSystem, configDir: Path): (r: Outcome<Unit>)
    ensures r.result.Ok? ==> r.fs.entries == fs.entries - {ConfigPathOf(configDir)}
    ensures r.result.Err? ==> r.fs == fs && Exists(fs, ConfigPathOf(configDir))
  {
    match RemoveFile(fs, ConfigPathOf(configDir))
    case Ok(fs') => Outcome(fs', Ok(Unit))
    case Err(e) => if e == NotFound then Outcome(fs, Ok(Unit)) else Outcome(fs, Err(DeleteFailed(e)))
  }

  /**
   * Loading distinguishes the three states of the file: absent is `None` with
   * nothing touched; present and decodable is its data with nothing touched;
   * present and not decodable fails, moving the file to its backup when it may.
   */
  lemma LoadConfigCases(fs: FileSystem, configDir: Path, decode: string -> Option<GameData>, secs: nat)
    ensures var configPath := ConfigPathOf(configDir);
      var o := LoadConfig(fs, configDir, decode, secs);
      && (!Exists(fs, configPath) ==> o == Outcome(fs, Ok(None)))
      && (IsFile(fs, configPath) && decode(fs.entries[configPath].content).Some? ==>
            o == Outcome(fs, Ok(decode(fs.entries[configPath].content))))
      && (IsFile(fs, configPath) && decode(fs.entries[configPath].content).None? ==>
            && o.result == Err(ConfigParseFailed)
            && (Rename(fs, configPath, BackupPathOf(configPath, secs)).Ok? ==>
                  && !Exists(o.fs, configPath)
                  && o.fs.entries[BackupPathOf(configPath, secs)] == fs.entries[configPath]))
  {
    var configPath := ConfigPathOf(configDir);
    BackupName(configDir, secs);
    var backup := BackupPathOf(configPath, secs);
    assert backup != configPath by {
      var n := |configPath.parts|;
      assert backup.parts[n - 1] == "userconfig.json.corrupt-" + NatToString(secs);
      assert |backup.parts[n - 1]| > |configPath.parts[n - 1]|;
    }
  }

  /** Saving data that encodes and decodes back, then loading, gives that data and touches nothing more. */
  lemma LoadAfterSave(fs: FileSystem, configDir: Path, data: GameData, encode: GameData -> string,
                      decode: string -> Option<GameData>, secs: nat)
    requires decode(encode(data)) == Some(data)
    ensures var saved := SaveConfig(fs, configDir, data, encode);
      saved.result.Ok? ==> LoadConfig(saved.fs, configDir, decode, secs) == Outcome(saved.fs, Ok(Some(data)))
  {
  }

  /**
   * Deleting is idempotent: once a delete succeeds, the file is gone, a second
   * delete succeeds without touching the disk, and loading finds no configuration.
   */
  lemma DeleteIdempotent(fs: FileSystem, configDir: Path, decode: string -> Option<GameData>, secs: nat)
    ensures var first := DeleteConfig(fs, configDir);
      first.result.Ok? ==>
        && !Exists(first.fs, ConfigPathOf(configDir))
        && DeleteConfig(first.fs, configDir) == first
        && LoadConfig(first.fs, configDir, decode, secs) == Outcome(first.fs, Ok(None))
    ensures !Exists(fs, ConfigPathOf(configDir)) ==> DeleteConfig(fs, configDir) == Outcome(fs, Ok(Unit))
  {
  }
}
