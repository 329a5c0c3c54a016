/**
 * The install-tracking skin registry of skinmanager.rs. Enabling a mod copies
 * its pak files into the game root and the contents of its `natives` folder
 * into the game's `natives` folder, recording every destination written;
 * disabling removes exactly the recorded destinations. As in skinextract.rs,
 * each command loads the registry, works on the disk and returns the disk as
 * it leaves it together with the registry it saves or the error that stopped it.
 */
module SkinManager {
  import opened Base
  import opened Paths
  import opened Disk
  import opened Keyed
  import opened FolderNames

  datatype SkinMod = SkinMod(
    name: string,
    path: string,                  // identifier: the mod folder under fossmodmanager/mods
    enabled: bool,
    thumbnailPath: Option<string>,
    author: Option<string>,
    version: Option<string>,
    description: Option<string>,
    installedTimestamp: int,
    installedFiles: seq<string>)   // every destination the last enable wrote

  datatype SkinRegistry = SkinRegistry(installedSkins: seq<SkinMod>, lastUpdated: int)

  /** What reading `skin_registry.json` gives; `parsed` is what decoding makes of the text. */
  datatype StoredRegistry =
    | Absent
    | Vanished
    | Unreadable
    | Stored(content: string, parsed: Option<SkinRegistry>)

  datatype ManagerError =
    | InvalidGameRoot(gameRootPath: string)
    | InvalidModPath(modPath: string)
    | RegistryReadFailed
    | RegistryParseFailed
    | ModNotFound(modPath: string)
    | CopyFailed(source: string, dest: string, cause: IoError)
    | CreateNativesDirFailed(cause: IoError)
    | CreateDirFailed(dir: string, cause: IoError)
    | StripPrefixFailed(filePath: string)

  /** The disk after a step, and what the step produced or why it stopped. */
  datatype Outcome<T> = Outcome(fs: FileSystem, result: Result<T, ManagerError>)

  function PathOf(m: SkinMod): string { m.path }

  /** `SkinRegistry::default()`. */
  const EmptyRegistry := SkinRegistry([], 0)

  /** `load_registry`: a missing or empty file is an empty registry. */
  function LoadRegistry(stored: StoredRegistry): (r: Result<SkinRegistry, ManagerError>)
    ensures stored.Absent? || stored.Vanished? ==> r == Ok(EmptyRegistry)
    ensures stored.Stored? && stored.content == "" ==> r == Ok(EmptyRegistry)
    ensures r.Err? <==> stored.Unreadable? || (stored.Stored? && stored.content != "" && stored.parsed.None?)
  {
    match stored
    case Absent => Ok(EmptyRegistry)
    case Vanished => Ok(EmptyRegistry)
    case Unreadable => Err(RegistryReadFailed)
    case Stored(content, parsed) =>
      if content == "" then Ok(EmptyRegistry)
      else if parsed.None? then Err(RegistryParseFailed)
      else Ok(parsed.value)
  }

  // ---------------------------------------------------------------------------
  // find_screenshot
  // ---------------------------------------------------------------------------

  /** The file names taken for a preview image, in the order they are tried. */
  const ScreenshotCandidates: seq<string> := [
    "preview.jpg", "preview.png", "screenshot.jpg", "screenshot.png", "thumb.jpg",
    "thumb.png", "image.jpg", "image.png", "1.png", "1.jpg"]

  /** `dir.join(name)` for a one-component name. */
  function Candidate(dir: Path, name: string): Path
  {
    Path(dir.absolute, dir.parts + [name])
  }

  /** Some candidate name is a file in `dir`. */
  predicate HasCandidate(fs: FileSystem, dir: Path)
  {
    exists i :: 0 <= i < |ScreenshotCandidates| && IsFile(fs, Candidate(dir, ScreenshotCandidates[i]))
  }

  /** The first of `names` that is a file in `dir`. */
  function FirstCandidate(fs: FileSystem, dir: Path, names: seq<string>): (r: Option<Path>)
    ensures r.Some? ==> IsFile(fs, r.value) && Parent(r.value) == Some(dir)
  {
    if names == [] then None
    else if IsFile(fs, Candidate(dir, names[0])) then Some(Candidate(dir, names[0]))
    else FirstCandidate(fs, dir, names[1..])
  }

  /** The first candidate found is a file, and no earlier name is; none is found only when no name is a file. */
  lemma {:induction false} FirstCandidateIsFirst(fs: FileSystem, dir: Path, names: seq<string>)
    ensures FirstCandidate(fs, dir, names).None? <==> forall i :: 0 <= i < |names| ==> !IsFile(fs, Candidate(dir, names[i]))
    ensures FirstCandidate(fs, dir, names).Some? ==>
              exists i :: 0 <= i < |names| && FirstCandidate(fs, dir, names) == Some(Candidate(dir, names[i]))
                          && IsFile(fs, Candidate(dir, names[i]))
                          && forall j :: 0 <= j < i ==> !IsFile(fs, Candidate(dir, names[j]))
  {
    if names != [] && !IsFile(fs, Candidate(dir, names[0])) {
      FirstCandidateIsFirst(fs, dir, names[1..]);
      assert forall i :: 1 <= i < |names| ==> names[i] == names[1..][i - 1];
      if FirstCandidate(fs, dir, names).Some? {
        var i :| 0 <= i < |names[1..]| && FirstCandidate(fs, dir, names[1..]) == Some(Candidate(dir, names[1..][i]))
                 && IsFile(fs, Candidate(dir, names[1..][i]))
                 && forall j :: 0 <= j < i ==> !IsFile(fs, Candidate(dir, names[1..][j]));
        assert FirstCandidate(fs, dir, names) == Some(Candidate(dir, names[i + 1]));
      }
    }
  }

  /** A directory yields a candidate exactly when it holds one. */
  lemma FirstCandidateFound(fs: FileSystem, dir: Path)
    ensures FirstCandidate(fs, dir, ScreenshotCandidates).Some? <==> HasCandidate(fs, dir)
  {
    FirstCandidateIsFirst(fs, dir, ScreenshotCandidates);
  }

  /** The first directory among `entries` holding a candidate, and its first candidate. */
  function FirstInSubdirs(fs: FileSystem, entries: seq<Path>): (r: Option<Path>)
    ensures r.Some? ==> IsFile(fs, r.value) && Parent(r.value).Some? && Parent(r.value).value in entries
  {
    if entries == [] then None
    else if IsDir(fs, entries[0]) && FirstCandidate(fs, entries[0], ScreenshotCandidates).Some? then
      FirstCandidate(fs, entries[0], ScreenshotCandidates)
    else FirstInSubdirs(fs, entries[1..])
  }

  /** No subdirectory yields a screenshot exactly when none holds a candidate. */
  lemma {:induction false} FirstInSubdirsNone(fs: FileSystem, entries: seq<Path>)
    ensures FirstInSubdirs(fs, entries).None? <==>
              forall k :: 0 <= k < |entries| ==> !(IsDir(fs, entries[k]) && HasCandidate(fs, entries[k]))
  {
    if entries != [] {
      FirstCandidateFound(fs, entries[0]);
      FirstInSubdirsNone(fs, entries[1..]);
      assert forall k :: 1 <= k < |entries| ==> entries[k] == entries[1..][k - 1];
    }
  }

  /** `entries[k]` is the first listed subdirectory holding a candidate. */
  predicate FirstWithCandidate(fs: FileSystem, entries: seq<Path>, k: nat)
    requires k < |entries|
  {
    && IsDir(fs, entries[k]) && HasCandidate(fs, entries[k])
    && forall j :: 0 <= j < k ==> !(IsDir(fs, entries[j]) && HasCandidate(fs, entries[j]))
  }

  /** The subdirectory searched is the first one, in listing order, that holds a candidate. */
  lemma {:induction false} FirstInSubdirsIsFirst(fs: FileSystem, entries: seq<Path>)
    ensures FirstInSubdirs(fs, entries).Some? ==>
              exists k: nat :: k < |entries| && FirstWithCandidate(fs, entries, k)
                               && FirstInSubdirs(fs, entries) == FirstCandidate(fs, entries[k], ScreenshotCandidates)
  {
    if entries != [] {
      FirstCandidateFound(fs, entries[0]);
      if IsDir(fs, entries[0]) && FirstCandidate(fs, entries[0], ScreenshotCandidates).Some? {
        assert FirstWithCandidate(fs, entries, 0);
      } else {
        var rest := entries[1..];
        FirstInSubdirsIsFirst(fs, rest);
        if FirstInSubdirs(fs, rest).Some? {
          var k: nat :| k < |rest| && FirstWithCandidate(fs, rest, k)
                        && FirstInSubdirs(fs, rest) == FirstCandidate(fs, rest[k], ScreenshotCandidates);
          ShiftFirstWithCandidate(fs, entries, k);
        }
      }
    }
  }

  /** Passing over a first entry without a candidate moves the first one with a candidate by one. */
  lemma ShiftFirstWithCandidate(fs: FileSystem, entries: seq<Path>, k: nat)
    requires entries != [] && k < |entries| - 1
    requires !(IsDir(fs, entries[0]) && HasCandidate(fs, entries[0]))
    requires FirstWithCandidate(fs, entries[1..], k)
    ensures FirstWithCandidate(fs, entries, k + 1)
  {
    assert entries[k + 1] == entries[1..][k];
    forall j | 0 <= j < k + 1
      ensures !(IsDir(fs, entries[j]) && HasCandidate(fs, entries[j]))
    {
      if j > 0 {
        assert entries[j] == entries[1..][j - 1];
      }
    }
  }

  /**
   * `find_screenshot`: a candidate in the mod folder itself, else one in the
   * first subdirectory that has one; `entries` is what `read_dir` lists in the
   * folder, in its order (nothing when listing fails).
   */
  function FindScreenshot(fs: FileSystem, modDir: Path, entries: seq<Path>): (r: Option<string>)
    ensures r.Some? ==> exists p :: IsFile(fs, p) && r.value == Render(p)
                                    && Parent(p).Some? && (Parent(p).value == modDir || Parent(p).value in entries)
    ensures HasCandidate(fs, modDir) ==> r.Some?
  {
    FirstCandidateFound(fs, modDir);
    match FirstCandidate(fs, modDir, ScreenshotCandidates)
    case Some(p) => Some(Render(p))
    case None =>
      match FirstInSubdirs(fs, entries)
      case Some(p) => Some(Render(p))
      case None => None
  }

  /**
   * The search order: a candidate in the mod folder wins over any in a
   * subdirectory, and within a folder the earliest candidate name wins; nothing
   * is found only when no folder searched holds a candidate.
   */
  lemma FindScreenshotOrder(fs: FileSystem, modDir: Path, entries: seq<Path>)
    ensures HasCandidate(fs, modDir) ==>
              exists i :: 0 <= i < |ScreenshotCandidates|
                          && FindScreenshot(fs, modDir, entries) == Some(Render(Candidate(modDir, ScreenshotCandidates[i])))
                          && IsFile(fs, Candidate(modDir, ScreenshotCandidates[i]))
                          && forall j :: 0 <= j < i ==> !IsFile(fs, Candidate(modDir, ScreenshotCandidates[j]))
    ensures !HasCandidate(fs, modDir) && FindScreenshot(fs, modDir, entries).Some? ==>
              exists k, i :: 0 <= k < |entries| && 0 <= i < |ScreenshotCandidates| && IsDir(fs, entries[k])
                             && FindScreenshot(fs, modDir, entries) == Some(Render(Candidate(entries[k], ScreenshotCandidates[i])))
                             && IsFile(fs, Candidate(entries[k], ScreenshotCandidates[i]))
    ensures FindScreenshot(fs, modDir, entries).None? <==>
              !HasCandidate(fs, modDir) && forall k :: 0 <= k < |entries| ==> !(IsDir(fs, entries[k]) && HasCandidate(fs, entries[k]))
  {
    FirstCandidateIsFirst(fs, modDir, ScreenshotCandidates);
    FirstInSubdirsNone(fs, entries);
    FirstInSubdirsIsFirst(fs, entries);
    if !HasCandidate(fs, modDir) && FirstInSubdirs(fs, entries).Some? {
      var k: nat :| k < |entries| && FirstWithCandidate(fs, entries, k)
                    && FirstInSubdirs(fs, entries) == FirstCandidate(fs, entries[k], ScreenshotCandidates);
      FirstCandidateIsFirst(fs, entries[k], ScreenshotCandidates);
    }
  }

  // ---------------------------------------------------------------------------
  // scan_for_skin_mods
  // ---------------------------------------------------------------------------

  /** What a scan returns, and the registry it saves when it gets that far. */
  datatype ScanResult = ScanResult(mods: seq<SkinMod>, saved: Option<SkinRegistry>)

  /** The registry entry a newly found folder gets: off, with nothing installed and no details. */
  function NewSkinMod(fs: FileSystem, p: Path, entries: seq<Path>, now: int): SkinMod
  {
    SkinMod(ExtractModNameSimple(FolderName(p)), Render(p), false, FindScreenshot(fs, p, entries), None, None, None, now, [])
  }

  /** What one entry of the walk of the mods directory contributes; `listing` is what `read_dir` gives for a folder. */
  function ScanEntry(fs: FileSystem, modsDir: Path, existing: map<string, SkinMod>, p: Path,
                     listing: Path -> seq<Path>, now: int): seq<SkinMod>
  {
    if p == modsDir || !IsDir(fs, p) then []
    else if Render(p) in existing then [existing[Render(p)]]
    else [NewSkinMod(fs, p, listing(p), now)]
  }

  function ScannedMods(fs: FileSystem, modsDir: Path, existing: map<string, SkinMod>, walk: seq<Path>,
                       listing: Path -> seq<Path>, now: int): seq<SkinMod>
  {
    if walk == [] then []
    else
      var n := |walk|;
      ScannedMods(fs, modsDir, existing, walk[..n - 1], listing, now) + ScanEntry(fs, modsDir, existing, walk[n - 1], listing, now)
  }

  /** The whole of `scan_for_skin_mods`: `walk` is the one-level walk of the mods directory. */
  function ScanOutcome(fs: FileSystem, gameRootPath: string, stored: StoredRegistry, walk: seq<Path>,
                       listing: Path -> seq<Path>, now: int): Result<ScanResult, ManagerError>
  {
    var root := Parse(gameRootPath);
    var modsDir := ModsDirOf(root);
    if !IsDir(fs, root) then Err(InvalidGameRoot(gameRootPath))
    else if !IsDir(fs, modsDir) then Ok(ScanResult([], None))
    else match LoadRegistry(stored)
      case Err(e) => Err(e)
      case Ok(registry) =>
        var mods := ScannedMods(fs, modsDir, ByKey(registry.installedSkins, PathOf), walk, listing, now);
        Ok(ScanResult(mods, Some(SkinRegistry(mods, now))))
  }

  /**
   * `m` is what the walked folder `p` contributes: the registry's entry for its
   * path, returned as it was, or, for a folder the registry does not hold, a new
   * entry.
   */
  predicate ScannedFrom(fs: FileSystem, modsDir: Path, existing: map<string, SkinMod>, listing: Path -> seq<Path>,
                        now: int, p: Path, m: SkinMod)
  {
    && p != modsDir && IsDir(fs, p) && m.path == Render(p)
    && if Render(p) in existing then m == existing[Render(p)] else m == NewSkinMod(fs, p, listing(p), now)
  }

  /** Every scanned entry comes from a folder of the walk: the old entry for it, or a new one. */
  lemma {:induction false} ScannedModsSound(fs: FileSystem, modsDir: Path, existing: map<string, SkinMod>, walk: seq<Path>,
                                            listing: Path -> seq<Path>, now: int)
    requires FiledByKey(existing, PathOf)
    ensures forall m :: m in ScannedMods(fs, modsDir, existing, walk, listing, now) ==>
              exists p :: p in walk && ScannedFrom(fs, modsDir, existing, listing, now, p, m)
  {
    if walk != [] {
      var n := |walk|;
      var p := walk[n - 1];
      var prev := ScannedMods(fs, modsDir, existing, walk[..n - 1], listing, now);
      var entry := ScanEntry(fs, modsDir, existing, p, listing, now);
      ScannedModsSound(fs, modsDir, existing, walk[..n - 1], listing, now);
      assert ScannedMods(fs, modsDir, existing, walk, listing, now) == prev + entry;
      forall m | m in prev + entry
        ensures exists q :: q in walk && ScannedFrom(fs, modsDir, existing, listing, now, q, m)
      {
        if m in prev {
          var q :| q in walk[..n - 1] && ScannedFrom(fs, modsDir, existing, listing, now, q, m);
          assert q in walk;
        } else {
          assert m == entry[0];
          if Render(p) in existing {
            assert PathOf(existing[Render(p)]) == Render(p);
          }
          assert ScannedFrom(fs, modsDir, existing, listing, now, p, m);
        }
      }
    }
  }

  /** Every folder of the walk is in the scanned list. */
  lemma {:induction false} ScannedModsComplete(fs: FileSystem, modsDir: Path, existing: map<string, SkinMod>, walk: seq<Path>,
                                               listing: Path -> seq<Path>, now: int)
    requires FiledByKey(existing, PathOf)
    ensures forall p :: p in walk && p != modsDir && IsDir(fs, p) ==>
              exists m :: m in ScannedMods(fs, modsDir, existing, walk, listing, now) && m.path == Render(p)
  {
    if walk != [] {
      var n := |walk|;
      var p := walk[n - 1];
      var prev := ScannedMods(fs, modsDir, existing, walk[..n - 1], listing, now);
      var entry := ScanEntry(fs, modsDir, existing, p, listing, now);
      ScannedModsComplete(fs, modsDir, existing, walk[..n - 1], listing, now);
      assert ScannedMods(fs, modsDir, existing, walk, listing, now) == prev + entry;
      assert forall q :: q in walk ==> q in walk[..n - 1] || q == p;
      assert forall m :: m in prev ==> m in prev + entry;
      if p != modsDir && IsDir(fs, p) {
        assert entry[0] in prev + entry;
      }
    }
  }

  /**
   * The merge as the scan performs it: every returned entry is for a folder of
   * the walk, and is the registry's entry as it was or, for a folder the
   * registry does not hold, a new entry switched off with nothing installed and
   * no author, version or description. Every folder of the walk is returned, so
   * the saved registry, which lists exactly the returned entries, drops the old
   * entries of folders no longer there.
   */
  lemma ScanMerge(fs: FileSystem, gameRootPath: string, stored: StoredRegistry, walk: seq<Path>,
                  listing: Path -> seq<Path>, now: int)
    requires ScanOutcome(fs, gameRootPath, stored, walk, listing, now).Ok?
    requires ScanOutcome(fs, gameRootPath, stored, walk, listing, now).value.saved.Some?
    ensures var registry := LoadRegistry(stored).value.installedSkins;
      var modsDir := ModsDirOf(Parse(gameRootPath));
      var r := ScanOutcome(fs, gameRootPath, stored, walk, listing, now).value;
      && r.saved == Some(SkinRegistry(r.mods, now))
      && (forall m :: m in r.mods ==> exists p :: p in walk && MergedFrom(fs, modsDir, registry, listing, now, p, m))
      && (forall p :: p in walk && p != modsDir && IsDir(fs, p) ==> exists m :: m in r.mods && m.path == Render(p))
  {
    var registry := LoadRegistry(stored).value.installedSkins;
    var existing := ByKey(registry, PathOf);
    var modsDir := ModsDirOf(Parse(gameRootPath));
    var mods := ScannedMods(fs, modsDir, existing, walk, listing, now);
    ScanOutcomeSaved(fs, gameRootPath, stored, walk, listing, now);
    ByKeyIsLast(registry, PathOf, "");
    ScannedModsSound(fs, modsDir, existing, walk, listing, now);
    ScannedModsComplete(fs, modsDir, existing, walk, listing, now);
    forall m | m in mods
      ensures exists p :: p in walk && MergedFrom(fs, modsDir, registry, listing, now, p, m)
    {
      var p :| p in walk && ScannedFrom(fs, modsDir, existing, listing, now, p, m);
      ScannedFromRegistry(fs, modsDir, registry, listing, now, p, m);
    }
  }

  /**
   * `m` is what the walked folder `p` contributes, stated against the registry
   * list: the registry's entry for its path, or, for a folder the registry does
   * not hold, a new entry switched off with nothing installed and no author,
   * version or description.
   */
  predicate MergedFrom(fs: FileSystem, modsDir: Path, registry: seq<SkinMod>, listing: Path -> seq<Path>,
                       now: int, p: Path, m: SkinMod)
  {
    && p != modsDir && IsDir(fs, p) && m.path == Render(p)
    && ((HasKey(registry, PathOf, Render(p)) && m in registry)
        || (!HasKey(registry, PathOf, Render(p)) && m == NewSkinMod(fs, p, listing(p), now)
            && !m.enabled && m.installedFiles == []
            && m.author.None? && m.version.None? && m.description.None?))
  }

  /** A scan that saves returns and saves the merged list of the registry it loaded. */
  lemma ScanOutcomeSaved(fs: FileSystem, gameRootPath: string, stored: StoredRegistry, walk: seq<Path>,
                         listing: Path -> seq<Path>, now: int)
    requires ScanOutcome(fs, gameRootPath, stored, walk, listing, now).Ok?
    requires ScanOutcome(fs, gameRootPath, stored, walk, listing, now).value.saved.Some?
    ensures LoadRegistry(stored).Ok?
    ensures var mods := ScannedMods(fs, ModsDirOf(Parse(gameRootPath)), ByKey(LoadRegistry(stored).value.installedSkins, PathOf),
                                    walk, listing, now);
      ScanOutcome(fs, gameRootPath, stored, walk, listing, now).value == ScanResult(mods, Some(SkinRegistry(mods, now)))
  {
  }

  /** What a walked folder contributes, stated against the registry list rather than its map by path. */
  lemma ScannedFromRegistry(fs: FileSystem, modsDir: Path, registry: seq<SkinMod>, listing: Path -> seq<Path>,
                            now: int, p: Path, m: SkinMod)
    requires ScannedFrom(fs, modsDir, ByKey(registry, PathOf), listing, now, p, m)
    ensures MergedFrom(fs, modsDir, registry, listing, now, p, m)
  {
    ByKeyIsLast(registry, PathOf, Render(p));
  }

  /** Scanning with an invalid game root fails; without a mods directory it finds nothing and saves nothing. */
  lemma ScanEarlyExits(fs: FileSystem, gameRootPath: string, stored: StoredRegistry, walk: seq<Path>,
                       listing: Path -> seq<Path>, now: int)
    ensures !IsDir(fs, Parse(gameRootPath)) ==>
              ScanOutcome(fs, gameRootPath, stored, walk, listing, now) == Err(InvalidGameRoot(gameRootPath))
    ensures IsDir(fs, Parse(gameRootPath)) && !IsDir(fs, ModsDirOf(Parse(gameRootPath))) ==>
              ScanOutcome(fs, gameRootPath, stored, walk, listing, now) == Ok(ScanResult([], None))
    ensures IsDir(fs, Parse(gameRootPath)) && IsDir(fs, ModsDirOf(Parse(gameRootPath))) ==>
              (ScanOutcome(fs, gameRootPath, stored, walk, listing, now).Err? <==> LoadRegistry(stored).Err?)
  {
  }

  /** One pass of the scan loop: what the folder at `path` adds to the list. */
  method ScanFolder(fs: FileSystem, modsDir: Path, existingMods: map<string, SkinMod>, path: Path,
                    listing: Path -> seq<Path>, now: int)
    returns (added: seq<SkinMod>)
    ensures added == ScanEntry(fs, modsDir, existingMods, path, listing, now)
  {
    if path == modsDir || !IsDir(fs, path) {
      return [];
    }
    var modPath := Render(path);
    if modPath in existingMods {
      return [existingMods[modPath]];
    }
    var displayName := ExtractModNameSimple(FolderName(path));
    var screenshotPath := FindScreenshot(fs, path, listing(path));
    var skinMod := SkinMod(displayName, modPath, false, screenshotPath, None, None, None, now, []);
    added := [skinMod];
  }

  /** The loop of the scan over the one-level walk of the mods directory. */
  method ScanFolders(fs: FileSystem, modsDir: Path, existingMods: map<string, SkinMod>, walk: seq<Path>,
                     listing: Path -> seq<Path>, now: int)
    returns (scannedMods: seq<SkinMod>)
    ensures scannedMods == ScannedMods(fs, modsDir, existingMods, walk, listing, now)
  {
    scannedMods := [];
    var i := 0;
    while i < |walk|
      invariant 0 <= i <= |walk|
      invariant scannedMods == ScannedMods(fs, modsDir, existingMods, walk[..i], listing, now)
    {
      assert walk[..i + 1][..i] == walk[..i];
      var added := ScanFolder(fs, modsDir, existingMods, walk[i], listing, now);
      scannedMods := scannedMods + added;
      i := i + 1;
    }
    assert walk[..i] == walk;
  }

  /** `scan_for_skin_mods`. */
  method ScanForSkinMods(fs: FileSystem, gameRootPath: string, stored: StoredRegistry, walk: seq<Path>,
                         listing: Path -> seq<Path>, now: int)
    returns (r: Result<ScanResult, ManagerError>)
    ensures r == ScanOutcome(fs, gameRootPath, stored, walk, listing, now)
  {
    var gameRoot := Parse(gameRootPath);
    if !IsDir(fs, gameRoot) {
      return Err(InvalidGameRoot(gameRootPath));
    }
    var modsDir := ModsDirOf(gameRoot);
    if !IsDir(fs, modsDir) {
      return Ok(ScanResult([], None));
    }
    var loaded := LoadRegistry(stored);
    if loaded.Err? {
      return Err(loaded.error);
    }
    var registry := loaded.value;
    var existingMods := CollectByKey(registry.installedSkins, PathOf);
    var scannedMods := ScanFolders(fs, modsDir, existingMods, walk, listing, now);
    r := Ok(ScanResult(scannedMods, Some(SkinRegistry(scannedMods, now))));
  }

  // ---------------------------------------------------------------------------
  // enable_skin_mod
  // ---------------------------------------------------------------------------

  /** `game_root.join(file_name)`: a pak goes directly into the game root under its own name. */
  function PakDestination(root: Path, source: Path): Path
    requires FileName(source).Some?
  {
    Path(root.absolute, root.parts + [FileName(source).value])
  }

  /** `dir.join("natives")`. */
  function NativesOf(dir: Path): Path
  {
    Path(dir.absolute, dir.parts + ["natives"])
  }

  /** `outcome` with `prefix` put in front of the destinations it lists, when it succeeded. */
  function Prefixed(prefix: seq<Path>, o: Outcome<seq<Path>>): (r: Outcome<seq<Path>>)
    ensures r.fs == o.fs && r.result.Ok? == o.result.Ok?
    ensures o.result.Ok? ==> r.result.value == prefix + o.result.value
    ensures o.result.Err? ==> r == o
  {
    if o.result.Err? then o else Outcome(o.fs, Ok(prefix + o.result.value))
  }

  lemma PrefixedNothing(o: Outcome<seq<Path>>)
    ensures Prefixed([], o) == o
  {
    if o.result.Ok? {
      assert [] + o.result.value == o.result.value;
    }
  }

  lemma PrefixedTwice(a: seq<Path>, b: seq<Path>, o: Outcome<seq<Path>>)
    ensures Prefixed(a, Prefixed(b, o)) == Prefixed(a + b, o)
  {
    if o.result.Ok? {
      assert a + (b + o.result.value) == (a + b) + o.result.value;
    }
  }

  /** The pak loop: every pak file of the walk, in walk order, copied into the game root. */
  function InstallPaks(fs: FileSystem, root: Path, walk: seq<Path>): Outcome<seq<Path>>
    decreases |walk|
  {
    if walk == [] then Outcome(fs, Ok([]))
    else
      var source := walk[0];
      if !IsPak(fs, source) then InstallPaks(fs, root, walk[1..])
      else
        var dest := PakDestination(root, source);
        match Copy(fs, source, dest)
        case Err(e) => Outcome(fs, Err(CopyFailed(Render(source), Render(dest), e)))
        case Ok(fs') => Prefixed([dest], InstallPaks(fs', root, walk[1..]))
  }

  /** `create_dir_all` on the parent of `dest`, when it has one. */
  function MakeParent(fs: FileSystem, dest: Path): Result<FileSystem, ManagerError>
  {
    match Parent(dest)
    case None => Ok(fs)
    case Some(parent) =>
      match CreateDirAll(fs, parent)
      case Err(e) => Err(CreateDirFailed(Render(parent), e))
      case Ok(fs') => Ok(fs')
  }

  /** The natives loop: every file of the walk of the mod's `natives`, copied to the same place below the game's. */
  function InstallNatives(fs: FileSystem, gameNatives: Path, nativesDir: Path, walk: seq<Path>): Outcome<seq<Path>>
    decreases |walk|
  {
    if walk == [] then Outcome(fs, Ok([]))
    else
      var source := walk[0];
      if !IsFile(fs, source) then InstallNatives(fs, gameNatives, nativesDir, walk[1..])
      else match StripPrefix(source, nativesDir)
        case None => Outcome(fs, Err(StripPrefixFailed(Render(source))))
        case Some(rel) =>
          var dest := Join(gameNatives, rel);
          match MakeParent(fs, dest)
          case Err(e) => Outcome(fs, Err(e))
          case Ok(fs1) =>
            match Copy(fs1, source, dest)
            case Err(e) => Outcome(fs1, Err(CopyFailed(Render(source), Render(dest), e)))
            case Ok(fs2) => Prefixed([dest], InstallNatives(fs2, gameNatives, nativesDir, walk[1..]))
  }

  /** The natives step: nothing when the mod has no `natives` folder, else the game's is made and filled. */
  function NativesPhase(fs: FileSystem, root: Path, modDir: Path, nativesWalk: seq<Path>): Outcome<seq<Path>>
  {
    var nativesDir := NativesOf(modDir);
    var gameNatives := NativesOf(root);
    if !IsDir(fs, nativesDir) then Outcome(fs, Ok([]))
    else if Exists(fs, gameNatives) then InstallNatives(fs, gameNatives, nativesDir, nativesWalk)
    else match CreateDirAll(fs, gameNatives)
      case Err(e) => Outcome(fs, Err(CreateNativesDirFailed(e)))
      case Ok(fs') => InstallNatives(fs', gameNatives, nativesDir, nativesWalk)
  }

  function RenderAll(ps: seq<Path>): (r: seq<string>)
    ensures |r| == |ps| && forall i :: 0 <= i < |ps| ==> r[i] == Render(ps[i])
  {
    seq(|ps|, i requires 0 <= i < |ps| => Render(ps[i]))
  }

  /** `enable_skin_mod` from the point where the mod has been found at `idx`. */
  function EnableFound(fs: FileSystem, root: Path, modDir: Path, skins: seq<SkinMod>, idx: nat,
                       shallowWalk: seq<Path>, nativesWalk: seq<Path>, now: int): Outcome<SkinRegistry>
    requires idx < |skins|
  {
    var paks := InstallPaks(fs, root, shallowWalk);
    if paks.result.Err? then Outcome(paks.fs, Err(paks.result.error))
    else
      var natives := NativesPhase(paks.fs, root, modDir, nativesWalk);
      if natives.result.Err? then Outcome(natives.fs, Err(natives.result.error))
      else
        var installed := RenderAll(paks.result.value + natives.result.value);
        Outcome(natives.fs, Ok(SkinRegistry(skins[idx := skins[idx].(enabled := true, installedFiles := installed)], now)))
  }

  /**
   * The whole of `enable_skin_mod`: `shallowWalk` is the walk of the mod folder
   * three levels deep, `nativesWalk` the full walk of its `natives` folder.
   */
  function EnableOutcome(fs: FileSystem, gameRootPath: string, stored: StoredRegistry, modPath: string,
                         shallowWalk: seq<Path>, nativesWalk: seq<Path>, now: int): Outcome<SkinRegistry>
  {
    var root := Parse(gameRootPath);
    var modDir := Parse(modPath);
    if !IsDir(fs, root) then Outcome(fs, Err(InvalidGameRoot(gameRootPath)))
    else if !IsDir(fs, modDir) then Outcome(fs, Err(InvalidModPath(modPath)))
    else match LoadRegistry(stored)
      case Err(e) => Outcome(fs, Err(e))
      case Ok(registry) =>
        match Position(registry.installedSkins, PathOf, modPath)
        case None => Outcome(fs, Err(ModNotFound(modPath)))
        case Some(idx) => EnableFound(fs, root, modDir, registry.installedSkins, idx, shallowWalk, nativesWalk, now)
  }

  /**
   * `after` differs from `before` only by what a run of copies and directory
   * creations can do: every entry stays, of the same kind; an entry that is
   * new or changed is a new directory or one of `written`; and each of
   * `written` is a file that may be changed.
   */
  predicate WritesOnly(before: FileSystem, after: FileSystem, written: seq<Path>)
  {
    && after.readOnly == before.readOnly
    && (forall q :: q in before.entries ==> q in after.entries && after.entries[q].Dir? == before.entries[q].Dir?)
    && (forall q :: q in after.entries && q !in written ==>
          (q in before.entries && after.entries[q] == before.entries[q]) || after.entries[q] == Dir)
    && (forall q :: q in written ==> IsFile(after, q) && q !in before.readOnly)
  }

  lemma WritesOnlyCompose(a: FileSystem, b: FileSystem, c: FileSystem, w1: seq<Path>, w2: seq<Path>)
    requires WritesOnly(a, b, w1) && WritesOnly(b, c, w2)
    ensures WritesOnly(a, c, w1 + w2)
  {
  }

  lemma CopyWritesOnly(fs: FileSystem, from: Path, to: Path)
    requires Copy(fs, from, to).Ok?
    ensures WritesOnly(fs, Copy(fs, from, to).value, [to])
  {
  }

  lemma CreateDirAllWritesOnly(fs: FileSystem, p: Path)
    requires CreateDirAll(fs, p).Ok?
    ensures WritesOnly(fs, CreateDirAll(fs, p).value, [])
  {
  }

  /**
   * The pak loop writes exactly the destinations it lists, and each is the game
   * root joined with the file name of a pak of the walk.
   */
  lemma {:induction false} InstallPaksWrites(fs: FileSystem, root: Path, walk: seq<Path>)
    decreases |walk|
    ensures var o := InstallPaks(fs, root, walk);
      o.result.Ok? ==>
        && WritesOnly(fs, o.fs, o.result.value)
        && forall d :: d in o.result.value ==> exists s :: s in walk && FileName(s).Some? && d == PakDestination(root, s)
  {
    if walk != [] {
      var source := walk[0];
      assert forall s :: s in walk[1..] ==> s in walk;
      InstallPaksWrites(fs, root, walk[1..]);
      if IsPak(fs, source) {
        var dest := PakDestination(root, source);
        if Copy(fs, source, dest).Ok? {
          var fs' := Copy(fs, source, dest).value;
          CopyWritesOnly(fs, source, dest);
          InstallPaksWrites(fs', root, walk[1..]);
          var rest := InstallPaks(fs', root, walk[1..]);
          if rest.result.Ok? {
            WritesOnlyCompose(fs, fs', rest.fs, [dest], rest.result.value);
          }
        }
      }
    }
  }

  /** One natives copy, its parent directories made first, writes only its destination. */
  lemma NativesCopyWrites(fs: FileSystem, source: Path, dest: Path)
    requires MakeParent(fs, dest).Ok? && Copy(MakeParent(fs, dest).value, source, dest).Ok?
    ensures WritesOnly(fs, Copy(MakeParent(fs, dest).value, source, dest).value, [dest])
  {
    var fs1 := MakeParent(fs, dest).value;
    if Parent(dest).Some? {
      CreateDirAllWritesOnly(fs, Parent(dest).value);
    }
    assert WritesOnly(fs, fs1, []);
    CopyWritesOnly(fs1, source, dest);
    WritesOnlyCompose(fs, fs1, Copy(fs1, source, dest).value, [], [dest]);
    assert [] + [dest] == [dest];
  }

  /**
   * The natives loop writes exactly the destinations it lists, and each is the
   * game's `natives` joined with the path of a file of the walk relative to the
   * mod's `natives`.
   */
  lemma {:induction false} InstallNativesWrites(fs: FileSystem, gameNatives: Path, nativesDir: Path, walk: seq<Path>)
    decreases |walk|
    ensures var o := InstallNatives(fs, gameNatives, nativesDir, walk);
      o.result.Ok? ==>
        && WritesOnly(fs, o.fs, o.result.value)
        && forall d :: d in o.result.value ==>
             exists s :: s in walk && StripPrefix(s, nativesDir).Some? && d == Join(gameNatives, StripPrefix(s, nativesDir).value)
  {
    if walk != [] {
      var source := walk[0];
      assert forall s :: s in walk[1..] ==> s in walk;
      if !IsFile(fs, source) {
        InstallNativesWrites(fs, gameNatives, nativesDir, walk[1..]);
      } else if StripPrefix(source, nativesDir).Some? {
        var dest := Join(gameNatives, StripPrefix(source, nativesDir).value);
        if MakeParent(fs, dest).Ok? && Copy(MakeParent(fs, dest).value, source, dest).Ok? {
          var fs2 := Copy(MakeParent(fs, dest).value, source, dest).value;
          NativesCopyWrites(fs, source, dest);
          InstallNativesWrites(fs2, gameNatives, nativesDir, walk[1..]);
          var rest := InstallNatives(fs2, gameNatives, nativesDir, walk[1..]);
          assert InstallNatives(fs, gameNatives, nativesDir, walk) == Prefixed([dest], rest);
          if rest.result.Ok? {
            WritesOnlyCompose(fs, fs2, rest.fs, [dest], rest.result.value);
          }
        }
      }
    }
  }

  lemma NativesPhaseWrites(fs: FileSystem, root: Path, modDir: Path, nativesWalk: seq<Path>)
    ensures var o := NativesPhase(fs, root, modDir, nativesWalk);
      o.result.Ok? ==>
        && WritesOnly(fs, o.fs, o.result.value)
        && forall d :: d in o.result.value ==>
             exists s :: s in nativesWalk && StripPrefix(s, NativesOf(modDir)).Some?
                         && d == Join(NativesOf(root), StripPrefix(s, NativesOf(modDir)).value)
  {
    var nativesDir := NativesOf(modDir);
    var gameNatives := NativesOf(root);
    if IsDir(fs, nativesDir) {
      if Exists(fs, gameNatives) {
        InstallNativesWrites(fs, gameNatives, nativesDir, nativesWalk);
      } else if CreateDirAll(fs, gameNatives).Ok? {
        var fs' := CreateDirAll(fs, gameNatives).value;
        CreateDirAllWritesOnly(fs, gameNatives);
        InstallNativesWrites(fs', gameNatives, nativesDir, nativesWalk);
        var o := InstallNatives(fs', gameNatives, nativesDir, nativesWalk);
        if o.result.Ok? {
          WritesOnlyCompose(fs, fs', o.fs, [], o.result.value);
          assert [] + o.result.value == o.result.value;
        }
      }
    }
  }

  // What an enable copies, stated by the walks alone

  /** The pak files of the walk, in walk order: what the pak loop copies. */
  function PakSources(fs: FileSystem, walk: seq<Path>): (r: seq<Path>)
    ensures forall s :: s in r <==> s in walk && IsPak(fs, s)
  {
    if walk == [] then []
    else (if IsPak(fs, walk[0]) then [walk[0]] else []) + PakSources(fs, walk[1..])
  }

  /** Where the pak loop puts each of `sources`. */
  function PakDestinations(root: Path, sources: seq<Path>): (r: seq<Path>)
    requires forall s :: s in sources ==> FileName(s).Some?
    ensures |r| == |sources| && forall i :: 0 <= i < |sources| ==> r[i] == PakDestination(root, sources[i])
  {
    seq(|sources|, i requires 0 <= i < |sources| => PakDestination(root, sources[i]))
  }

  /** The files of the walk that lie below the mod's `natives`, in walk order: what the natives loop copies. */
  function NativesSources(fs: FileSystem, nativesDir: Path, walk: seq<Path>): (r: seq<Path>)
    ensures forall s :: s in r <==> s in walk && IsFile(fs, s) && StripPrefix(s, nativesDir).Some?
  {
    if walk == [] then []
    else (if IsFile(fs, walk[0]) && StripPrefix(walk[0], nativesDir).Some? then [walk[0]] else [])
         + NativesSources(fs, nativesDir, walk[1..])
  }

  /** Where the natives loop puts each of `sources`: the same place below the game's `natives`. */
  function NativesDestinations(gameNatives: Path, nativesDir: Path, sources: seq<Path>): (r: seq<Path>)
    requires forall s :: s in sources ==> StripPrefix(s, nativesDir).Some?
    ensures |r| == |sources|
    ensures forall i :: 0 <= i < |sources| ==> r[i] == Join(gameNatives, StripPrefix(sources[i], nativesDir).value)
  {
    seq(|sources|, i requires 0 <= i < |sources| => Join(gameNatives, StripPrefix(sources[i], nativesDir).value))
  }

  /** The natives sources, when the mod has a `natives` folder. */
  function NativesPhaseSources(fs: FileSystem, modDir: Path, nativesWalk: seq<Path>): (r: seq<Path>)
    ensures forall s :: s in r ==> s in nativesWalk && IsFile(fs, s) && StripPrefix(s, NativesOf(modDir)).Some?
  {
    if IsDir(fs, NativesOf(modDir)) then NativesSources(fs, NativesOf(modDir), nativesWalk) else []
  }

  /** Every file an enable copies: the paks, then the natives files. */
  function EnableSources(fs: FileSystem, modDir: Path, shallowWalk: seq<Path>, nativesWalk: seq<Path>): seq<Path>
  {
    PakSources(fs, shallowWalk) + NativesPhaseSources(fs, modDir, nativesWalk)
  }

  /** The destination of each of `EnableSources`, in the same order. */
  function EnableDestinations(fs: FileSystem, root: Path, modDir: Path, shallowWalk: seq<Path>, nativesWalk: seq<Path>)
    : (r: seq<Path>)
    ensures |r| == |EnableSources(fs, modDir, shallowWalk, nativesWalk)|
  {
    PakDestinations(root, PakSources(fs, shallowWalk))
    + NativesDestinations(NativesOf(root), NativesOf(modDir), NativesPhaseSources(fs, modDir, nativesWalk))
  }

  /** `i` is the last position of `ds` holding `ds[i]`: the copy there is the one that stays. */
  predicate LastOf(ds: seq<Path>, i: int)
  {
    0 <= i < |ds| && forall j :: i < j < |ds| ==> ds[j] != ds[i]
  }

  /**
   * Every one of `sources` was a file of `before`, and `after` holds at each of
   * `dests` the bytes `before` held at the source in the same position, the
   * last such source where a destination repeats.
   */
  predicate CopiedFrom(before: FileSystem, after: FileSystem, sources: seq<Path>, dests: seq<Path>)
  {
    && |sources| == |dests|
    && forall i :: 0 <= i < |sources| ==>
         && IsFile(before, sources[i])
         && (LastOf(dests, i) ==> dests[i] in after.entries && after.entries[dests[i]] == before.entries[sources[i]])
  }

  /** `a` and `b` agree on which of `ps` are files and on the bytes of those. */
  predicate SameFiles(a: FileSystem, b: FileSystem, ps: seq<Path>)
  {
    forall s :: s in ps ==> (IsFile(a, s) <==> IsFile(b, s)) && (IsFile(a, s) ==> a.entries[s] == b.entries[s])
  }

  lemma WritesOnlySameFiles(a: FileSystem, b: FileSystem, written: seq<Path>, ps: seq<Path>)
    requires WritesOnly(a, b, written)
    requires forall s :: s in ps ==> s !in written
    ensures SameFiles(a, b, ps)
  {
  }

  lemma {:induction false} PakSourcesFrame(a: FileSystem, b: FileSystem, walk: seq<Path>)
    requires SameFiles(a, b, walk)
    ensures PakSources(a, walk) == PakSources(b, walk)
  {
    if walk != [] {
      assert walk[0] in walk;
      assert forall s :: s in walk[1..] ==> s in walk;
      PakSourcesFrame(a, b, walk[1..]);
    }
  }

  lemma {:induction false} NativesSourcesFrame(a: FileSystem, b: FileSystem, nativesDir: Path, walk: seq<Path>)
    requires SameFiles(a, b, walk)
    ensures NativesSources(a, nativesDir, walk) == NativesSources(b, nativesDir, walk)
  {
    if walk != [] {
      assert walk[0] in walk;
      assert forall s :: s in walk[1..] ==> s in walk;
      NativesSourcesFrame(a, b, nativesDir, walk[1..]);
    }
  }

  /** Copies made one run after another add up, when the second run reads files the first left alone. */
  lemma CopiedFromCompose(a: FileSystem, b: FileSystem, c: FileSystem,
                          s1: seq<Path>, d1: seq<Path>, s2: seq<Path>, d2: seq<Path>)
    requires CopiedFrom(a, b, s1, d1) && CopiedFrom(b, c, s2, d2) && WritesOnly(b, c, d2)
    requires SameFiles(a, b, s2)
    ensures CopiedFrom(a, c, s1 + s2, d1 + d2)
  {
    var ss := s1 + s2;
    var ds := d1 + d2;
    forall i | 0 <= i < |ss|
      ensures IsFile(a, ss[i])
      ensures LastOf(ds, i) ==> ds[i] in c.entries && c.entries[ds[i]] == a.entries[ss[i]]
    {
      if i < |s1| {
        assert ss[i] == s1[i] && ds[i] == d1[i];
        if LastOf(ds, i) {
          forall j | i < j < |d1|
            ensures d1[j] != d1[i]
          {
            assert ds[j] == d1[j];
          }
          assert LastOf(d1, i);
          forall k | 0 <= k < |d2|
            ensures d2[k] != d1[i]
          {
            assert ds[|d1| + k] == d2[k];
          }
        }
      } else {
        var k := i - |s1|;
        assert ss[i] == s2[k] && ds[i] == d2[k];
        assert s2[k] in s2;
        if LastOf(ds, i) {
          forall j | k < j < |d2|
            ensures d2[j] != d2[k]
          {
            assert ds[|d1| + j] == d2[j];
          }
          assert LastOf(d2, k);
        }
      }
    }
  }

  lemma PakDestinationsCons(root: Path, source: Path, sources: seq<Path>)
    requires FileName(source).Some? && forall s :: s in sources ==> FileName(s).Some?
    ensures PakDestinations(root, [source] + sources) == [PakDestination(root, source)] + PakDestinations(root, sources)
  {
  }

  /** One pak copy puts the source's bytes at the destination, leaves the files of `rest` alone and makes no directory. */
  lemma PakCopyCopies(fs: FileSystem, source: Path, dest: Path, rest: seq<Path>)
    requires dest !in rest && Copy(fs, source, dest).Ok?
    ensures var after := Copy(fs, source, dest).value;
      && CopiedFrom(fs, after, [source], [dest]) && SameFiles(fs, after, rest)
      && forall q :: IsDir(after, q) ==> IsDir(fs, q)
  {
    CopyWritesOnly(fs, source, dest);
    WritesOnlySameFiles(fs, Copy(fs, source, dest).value, [dest], rest);
  }

  /** One turn of the pak loop that copies a pak. */
  lemma InstallPaksUnfold(fs: FileSystem, root: Path, walk: seq<Path>)
    requires walk != [] && IsPak(fs, walk[0]) && Copy(fs, walk[0], PakDestination(root, walk[0])).Ok?
    ensures InstallPaks(fs, root, walk)
         == Prefixed([PakDestination(root, walk[0])], InstallPaks(Copy(fs, walk[0], PakDestination(root, walk[0])).value, root, walk[1..]))
  {
  }

  /**
   * When no pak destination is itself an entry of the walk, the pak loop lists
   * exactly the destinations of the walk's pak files, in walk order, and
   * copies each pak's bytes there; it makes no directory.
   */
  lemma {:induction false} InstallPaksCopies(fs: FileSystem, root: Path, walk: seq<Path>)
    decreases |walk|
    requires forall d :: d in PakDestinations(root, PakSources(fs, walk)) ==> d !in walk
    ensures var o := InstallPaks(fs, root, walk);
      o.result.Ok? ==>
        && o.result.value == PakDestinations(root, PakSources(fs, walk))
        && CopiedFrom(fs, o.fs, PakSources(fs, walk), o.result.value)
        && forall q :: IsDir(o.fs, q) ==> IsDir(fs, q)
  {
    if walk != [] {
      var source := walk[0];
      var rest := walk[1..];
      assert forall s :: s in rest ==> s in walk;
      var restSources := PakSources(fs, rest);
      if !IsPak(fs, source) {
        assert PakSources(fs, walk) == restSources;
        InstallPaksCopies(fs, root, rest);
      } else {
        var dest := PakDestination(root, source);
        var restDests := PakDestinations(root, restSources);
        assert PakSources(fs, walk) == [source] + restSources;
        PakDestinationsCons(root, source, restSources);
        assert dest in [dest] + restDests;
        if Copy(fs, source, dest).Ok? {
          var fs' := Copy(fs, source, dest).value;
          assert forall d :: d in restDests ==> d in [dest] + restDests;
          PakCopyCopies(fs, source, dest, rest);
          PakSourcesFrame(fs, fs', rest);
          InstallPaksCopies(fs', root, rest);
          var o := InstallPaks(fs', root, rest);
          InstallPaksUnfold(fs, root, walk);
          if o.result.Ok? {
            InstallPaksWrites(fs', root, rest);
            CopiedFromCompose(fs, fs', o.fs, [source], [dest], restSources, o.result.value);
          }
        }
      }
    }
  }

  /** One natives copy puts the source's bytes at the destination and leaves the files of `rest` alone. */
  lemma NativesCopyCopies(fs: FileSystem, source: Path, dest: Path, rest: seq<Path>)
    requires IsFile(fs, source) && dest !in rest
    requires MakeParent(fs, dest).Ok? && Copy(MakeParent(fs, dest).value, source, dest).Ok?
    ensures var after := Copy(MakeParent(fs, dest).value, source, dest).value;
      CopiedFrom(fs, after, [source], [dest]) && SameFiles(fs, after, rest)
  {
    var fs1 := MakeParent(fs, dest).value;
    if Parent(dest).Some? {
      CreateDirAllWritesOnly(fs, Parent(dest).value);
    }
    WritesOnlySameFiles(fs, fs1, [], [source]);
    NativesCopyWrites(fs, source, dest);
    WritesOnlySameFiles(fs, Copy(fs1, source, dest).value, [dest], rest);
  }

  lemma NativesDestinationsCons(gameNatives: Path, nativesDir: Path, source: Path, sources: seq<Path>)
    requires StripPrefix(source, nativesDir).Some?
    requires forall s :: s in sources ==> StripPrefix(s, nativesDir).Some?
    ensures NativesDestinations(gameNatives, nativesDir, [source] + sources)
         == [Join(gameNatives, StripPrefix(source, nativesDir).value)] + NativesDestinations(gameNatives, nativesDir, sources)
  {
  }

  /** One turn of the natives loop that copies a file. */
  lemma InstallNativesUnfold(fs: FileSystem, gameNatives: Path, nativesDir: Path, walk: seq<Path>)
    requires walk != [] && IsFile(fs, walk[0]) && StripPrefix(walk[0], nativesDir).Some?
    requires var dest := Join(gameNatives, StripPrefix(walk[0], nativesDir).value);
      MakeParent(fs, dest).Ok? && Copy(MakeParent(fs, dest).value, walk[0], dest).Ok?
    ensures var dest := Join(gameNatives, StripPrefix(walk[0], nativesDir).value);
      InstallNatives(fs, gameNatives, nativesDir, walk)
      == Prefixed([dest], InstallNatives(Copy(MakeParent(fs, dest).value, walk[0], dest).value, gameNatives, nativesDir, walk[1..]))
  {
  }

  /**
   * When no natives destination is itself an entry of the walk, the natives
   * loop lists exactly the destinations of the walk's files below the mod's
   * `natives`, in walk order, and copies each file's bytes there.
   */
  lemma {:induction false} InstallNativesCopies(fs: FileSystem, gameNatives: Path, nativesDir: Path, walk: seq<Path>)
    decreases |walk|
    requires forall d :: d in NativesDestinations(gameNatives, nativesDir, NativesSources(fs, nativesDir, walk)) ==> d !in walk
    ensures var o := InstallNatives(fs, gameNatives, nativesDir, walk);
      o.result.Ok? ==>
        && o.result.value == NativesDestinations(gameNatives, nativesDir, NativesSources(fs, nativesDir, walk))
        && CopiedFrom(fs, o.fs, NativesSources(fs, nativesDir, walk), o.result.value)
  {
    if walk != [] {
      var source := walk[0];
      var rest := walk[1..];
      assert forall s :: s in rest ==> s in walk;
      var restSources := NativesSources(fs, nativesDir, rest);
      if !IsFile(fs, source) || StripPrefix(source, nativesDir).None? {
        assert NativesSources(fs, nativesDir, walk) == restSources;
        if !IsFile(fs, source) {
          InstallNativesCopies(fs, gameNatives, nativesDir, rest);
        }
      } else {
        var dest := Join(gameNatives, StripPrefix(source, nativesDir).value);
        var restDests := NativesDestinations(gameNatives, nativesDir, restSources);
        assert NativesSources(fs, nativesDir, walk) == [source] + restSources;
        NativesDestinationsCons(gameNatives, nativesDir, source, restSources);
        assert dest in [dest] + restDests;
        if MakeParent(fs, dest).Ok? && Copy(MakeParent(fs, dest).value, source, dest).Ok? {
          var fs2 := Copy(MakeParent(fs, dest).value, source, dest).value;
          NativesCopyCopies(fs, source, dest, rest);
          NativesSourcesFrame(fs, fs2, nativesDir, rest);
          assert forall d :: d in restDests ==> d in [dest] + restDests;
          InstallNativesCopies(fs2, gameNatives, nativesDir, rest);
          var o := InstallNatives(fs2, gameNatives, nativesDir, rest);
          InstallNativesUnfold(fs, gameNatives, nativesDir, walk);
          if o.result.Ok? {
            InstallNativesWrites(fs2, gameNatives, nativesDir, rest);
            CopiedFromCompose(fs, fs2, o.fs, [source], [dest], restSources, o.result.value);
          }
        }
      }
    }
  }

  /** The natives step lists and copies what `NativesPhaseSources` names, under the same condition. */
  lemma NativesPhaseCopies(fs: FileSystem, root: Path, modDir: Path, nativesWalk: seq<Path>)
    requires forall d :: d in NativesDestinations(NativesOf(root), NativesOf(modDir), NativesPhaseSources(fs, modDir, nativesWalk))
                         ==> d !in nativesWalk
    ensures var o := NativesPhase(fs, root, modDir, nativesWalk);
      var sources := NativesPhaseSources(fs, modDir, nativesWalk);
      o.result.Ok? ==>
        && o.result.value == NativesDestinations(NativesOf(root), NativesOf(modDir), sources)
        && CopiedFrom(fs, o.fs, sources, o.result.value)
  {
    var nativesDir := NativesOf(modDir);
    var gameNatives := NativesOf(root);
    if IsDir(fs, nativesDir) {
      if Exists(fs, gameNatives) {
        InstallNativesCopies(fs, gameNatives, nativesDir, nativesWalk);
      } else if CreateDirAll(fs, gameNatives).Ok? {
        var fs' := CreateDirAll(fs, gameNatives).value;
        CreateDirAllWritesOnly(fs, gameNatives);
        WritesOnlySameFiles(fs, fs', [], nativesWalk);
        NativesSourcesFrame(fs, fs', nativesDir, nativesWalk);
        InstallNativesCopies(fs', gameNatives, nativesDir, nativesWalk);
        var o := InstallNatives(fs', gameNatives, nativesDir, nativesWalk);
        if o.result.Ok? {
          InstallNativesWrites(fs', gameNatives, nativesDir, nativesWalk);
          var sources := NativesSources(fs, nativesDir, nativesWalk);
          assert CopiedFrom(fs, fs', [], []);
          CopiedFromCompose(fs, fs', o.fs, [], [], sources, o.result.value);
          assert [] + sources == sources && [] + o.result.value == o.result.value;
        }
      }
    } else {
      assert CopiedFrom(fs, fs, [], []);
    }
  }

  /**
   * When no destination is itself an entry of either walk, a successful enable
   * records exactly the destinations of the walks' pak files and then of the
   * files below the mod's `natives`, each in walk order; each destination
   * holds the bytes of its source (the last one, where two share a
   * destination); and nothing but directories and those destinations changes.
   */
  lemma EnableCopiesSources(fs: FileSystem, root: Path, modDir: Path, skins: seq<SkinMod>, idx: nat,
                            shallowWalk: seq<Path>, nativesWalk: seq<Path>, now: int)
    requires idx < |skins|
    requires forall d :: d in EnableDestinations(fs, root, modDir, shallowWalk, nativesWalk) ==>
               d !in shallowWalk && d !in nativesWalk
    ensures var o := EnableFound(fs, root, modDir, skins, idx, shallowWalk, nativesWalk, now);
      var dests := EnableDestinations(fs, root, modDir, shallowWalk, nativesWalk);
      o.result.Ok? ==>
        && o.result.value == SkinRegistry(skins[idx := skins[idx].(enabled := true, installedFiles := RenderAll(dests))], now)
        && CopiedFrom(fs, o.fs, EnableSources(fs, modDir, shallowWalk, nativesWalk), dests)
        && WritesOnly(fs, o.fs, dests)
  {
    var paks := InstallPaks(fs, root, shallowWalk);
    var pakSources := PakSources(fs, shallowWalk);
    var pakDests := PakDestinations(root, pakSources);
    var nativesSources := NativesPhaseSources(fs, modDir, nativesWalk);
    var nativesDests := NativesDestinations(NativesOf(root), NativesOf(modDir), nativesSources);
    assert EnableDestinations(fs, root, modDir, shallowWalk, nativesWalk) == pakDests + nativesDests;
    InstallPaksCopies(fs, root, shallowWalk);
    if paks.result.Ok? {
      InstallPaksWrites(fs, root, shallowWalk);
      WritesOnlySameFiles(fs, paks.fs, pakDests, nativesWalk);
      NativesSourcesFrame(fs, paks.fs, NativesOf(modDir), nativesWalk);
      assert IsDir(paks.fs, NativesOf(modDir)) == IsDir(fs, NativesOf(modDir));
      assert NativesPhaseSources(paks.fs, modDir, nativesWalk) == nativesSources;
      var natives := NativesPhase(paks.fs, root, modDir, nativesWalk);
      NativesPhaseCopies(paks.fs, root, modDir, nativesWalk);
      if natives.result.Ok? {
        NativesPhaseWrites(paks.fs, root, modDir, nativesWalk);
        CopiedFromCompose(fs, paks.fs, natives.fs, pakSources, pakDests, nativesSources, nativesDests);
        WritesOnlyCompose(fs, paks.fs, natives.fs, pakDests, nativesDests);
      }
    }
  }

  /**
   * What a successful enable records and saves: the mod switched on with
   * `installed_files` listing, in order, the pak destinations and then the
   * natives destinations; every path the enable wrote is recorded and still a
   * file; no other registry entry changes.
   */
  lemma EnableRecordsDestinations(fs: FileSystem, root: Path, modDir: Path, skins: seq<SkinMod>, idx: nat,
                                  shallowWalk: seq<Path>, nativesWalk: seq<Path>, now: int)
    requires idx < |skins|
    ensures var o := EnableFound(fs, root, modDir, skins, idx, shallowWalk, nativesWalk, now);
      o.result.Ok? ==>
        exists paks: seq<Path>, natives: seq<Path> ::
          && o.result.value == SkinRegistry(skins[idx := skins[idx].(enabled := true, installedFiles := RenderAll(paks + natives))], now)
          && WritesOnly(fs, o.fs, paks + natives)
          && (forall d :: d in paks ==> exists s :: s in shallowWalk && FileName(s).Some? && d == PakDestination(root, s))
          && (forall d :: d in natives ==>
                exists s :: s in nativesWalk && StripPrefix(s, NativesOf(modDir)).Some?
                            && d == Join(NativesOf(root), StripPrefix(s, NativesOf(modDir)).value))
  {
    var paks := InstallPaks(fs, root, shallowWalk);
    InstallPaksWrites(fs, root, shallowWalk);
    if paks.result.Ok? {
      var natives := NativesPhase(paks.fs, root, modDir, nativesWalk);
      NativesPhaseWrites(paks.fs, root, modDir, nativesWalk);
      if natives.result.Ok? {
        WritesOnlyCompose(fs, paks.fs, natives.fs, paks.result.value, natives.result.value);
      }
    }
  }

  /** Enabling with an invalid game root or mod folder, or a mod the registry lacks, fails before touching the disk. */
  lemma EnableEarlyErrors(fs: FileSystem, gameRootPath: string, stored: StoredRegistry, modPath: string,
                          shallowWalk: seq<Path>, nativesWalk: seq<Path>, now: int)
    ensures var o := EnableOutcome(fs, gameRootPath, stored, modPath, shallowWalk, nativesWalk, now);
      && (!IsDir(fs, Parse(gameRootPath)) ==> o == Outcome(fs, Err(InvalidGameRoot(gameRootPath))))
      && (IsDir(fs, Parse(gameRootPath)) && !IsDir(fs, Parse(modPath)) ==> o == Outcome(fs, Err(InvalidModPath(modPath))))
      && (IsDir(fs, Parse(gameRootPath)) && IsDir(fs, Parse(modPath)) && LoadRegistry(stored).Ok?
          && !HasKey(LoadRegistry(stored).value.installedSkins, PathOf, modPath) ==>
            o == Outcome(fs, Err(ModNotFound(modPath))))
  {
  }

  /** The pak loop of `enable_skin_mod`. */
  method CopyPakFiles(fs: FileSystem, gameRoot: Path, shallowWalk: seq<Path>) returns (o: Outcome<seq<Path>>)
    ensures o == InstallPaks(fs, gameRoot, shallowWalk)
  {
    var disk := fs;
    var installed: seq<Path> := [];
    var i := 0;
    assert shallowWalk[i..] == shallowWalk;
    PrefixedNothing(InstallPaks(fs, gameRoot, shallowWalk));
    while i < |shallowWalk|
      invariant 0 <= i <= |shallowWalk|
      invariant Prefixed(installed, InstallPaks(disk, gameRoot, shallowWalk[i..])) == InstallPaks(fs, gameRoot, shallowWalk)
    {
      var sourcePath := shallowWalk[i];
      assert shallowWalk[i..][1..] == shallowWalk[i + 1..];
      if IsFile(disk, sourcePath) && HasExtension(sourcePath, "pak") {
        var destPath := PakDestination(gameRoot, sourcePath);
        var copied := Copy(disk, sourcePath, destPath);
        if copied.Err? {
          return Outcome(disk, Err(CopyFailed(Render(sourcePath), Render(destPath), copied.error)));
        }
        PrefixedTwice(installed, [destPath], InstallPaks(copied.value, gameRoot, shallowWalk[i + 1..]));
        disk := copied.value;
        installed := installed + [destPath];
      }
      i := i + 1;
    }
    assert installed + [] == installed;
    return Outcome(disk, Ok(installed));
  }

  /** The natives loop of `enable_skin_mod`. */
  method CopyNativesFiles(fs: FileSystem, gameNatives: Path, nativesDir: Path, nativesWalk: seq<Path>)
    returns (o: Outcome<seq<Path>>)
    ensures o == InstallNatives(fs, gameNatives, nativesDir, nativesWalk)
  {
    var disk := fs;
    var installed: seq<Path> := [];
    var i := 0;
    assert nativesWalk[i..] == nativesWalk;
    PrefixedNothing(InstallNatives(fs, gameNatives, nativesDir, nativesWalk));
    while i < |nativesWalk|
      invariant 0 <= i <= |nativesWalk|
      invariant Prefixed(installed, InstallNatives(disk, gameNatives, nativesDir, nativesWalk[i..]))
             == InstallNatives(fs, gameNatives, nativesDir, nativesWalk)
    {
      var sourcePath := nativesWalk[i];
      assert nativesWalk[i..][1..] == nativesWalk[i + 1..];
      if IsFile(disk, sourcePath) {
        var relPath := StripPrefix(sourcePath, nativesDir);
        if relPath.None? {
          return Outcome(disk, Err(StripPrefixFailed(Render(sourcePath))));
        }
        var destPath := Join(gameNatives, relPath.value);
        var ready := disk;
        var parent := Parent(destPath);
        if parent.Some? {
          var created := CreateDirAll(disk, parent.value);
          if created.Err? {
            return Outcome(disk, Err(CreateDirFailed(Render(parent.value), created.error)));
          }
          ready := created.value;
        }
        var copied := Copy(ready, sourcePath, destPath);
        if copied.Err? {
          return Outcome(ready, Err(CopyFailed(Render(sourcePath), Render(destPath), copied.error)));
        }
        PrefixedTwice(installed, [destPath], InstallNatives(copied.value, gameNatives, nativesDir, nativesWalk[i + 1..]));
        disk := copied.value;
        installed := installed + [destPath];
      }
      i := i + 1;
    }
    assert installed + [] == installed;
    return Outcome(disk, Ok(installed));
  }

  /** `enable_skin_mod`. */
  method EnableSkinMod(fs: FileSystem, gameRootPath: string, stored: StoredRegistry, modPath: string,
                       shallowWalk: seq<Path>, nativesWalk: seq<Path>, now: int)
    returns (o: Outcome<SkinRegistry>)
    ensures o == EnableOutcome(fs, gameRootPath, stored, modPath, shallowWalk, nativesWalk, now)
  {
    var gameRoot := Parse(gameRootPath);
    if !IsDir(fs, gameRoot) {
      return Outcome(fs, Err(InvalidGameRoot(gameRootPath)));
    }
    var modDir := Parse(modPath);
    if !IsDir(fs, modDir) {
      return Outcome(fs, Err(InvalidModPath(modPath)));
    }
    var loaded := LoadRegistry(stored);
    if loaded.Err? {
      return Outcome(fs, Err(loaded.error));
    }
    var registry := loaded.value;
    var found := Position(registry.installedSkins, PathOf, modPath);
    if found.None? {
      return Outcome(fs, Err(ModNotFound(modPath)));
    }
    var modIndex := found.value;
    var paks := CopyPakFiles(fs, gameRoot, shallowWalk);
    if paks.result.Err? {
      return Outcome(paks.fs, Err(paks.result.error));
    }
    var disk := paks.fs;
    var installedFiles := paks.result.value;
    var nativesDir := NativesOf(modDir);
    if IsDir(disk, nativesDir) {
      var gameNativesDir := NativesOf(gameRoot);
      if !Exists(disk, gameNativesDir) {
        var created := CreateDirAll(disk, gameNativesDir);
        if created.Err? {
          return Outcome(disk, Err(CreateNativesDirFailed(created.error)));
        }
        disk := created.value;
      }
      var natives := CopyNativesFiles(disk, gameNativesDir, nativesDir, nativesWalk);
      if natives.result.Err? {
        return Outcome(natives.fs, Err(natives.result.error));
      }
      disk := natives.fs;
      installedFiles := installedFiles + natives.result.value;
    } else {
      assert installedFiles + [] == installedFiles;
    }
    var skins := registry.installedSkins;
    skins := skins[modIndex := skins[modIndex].(enabled := true, installedFiles := RenderAll(installedFiles))];
    return Outcome(disk, Ok(SkinRegistry(skins, now)));
  }

  // ---------------------------------------------------------------------------
  // disable_skin_mod
  // ---------------------------------------------------------------------------

  /** The recorded destinations, as `PathBuf::from` reads them back. */
  function RecordedPaths(files: seq<string>): set<Path>
  {
    set f | f in files :: Parse(f)
  }

  /** The removal loop: every recorded path that exists is removed; a removal that fails is passed over. */
  function RemoveRecorded(fs: FileSystem, files: seq<string>): FileSystem
    decreases |files|
  {
    if files == [] then fs
    else
      var path := Parse(files[0]);
      var removed := RemoveFile(fs, path);
      RemoveRecorded(if Exists(fs, path) && removed.Ok? then removed.value else fs, files[1..])
  }

  lemma RecordedPathsCons(files: seq<string>)
    requires files != []
    ensures RecordedPaths(files) == {Parse(files[0])} + RecordedPaths(files[1..])
  {
    assert files == [files[0]] + files[1..];
  }

  /** One pass of the removal loop takes away `path` exactly when it is a file it may remove. */
  lemma RemoveOnce(fs: FileSystem, path: Path)
    ensures var removed := RemoveFile(fs, path);
      var fs' := if Exists(fs, path) && removed.Ok? then removed.value else fs;
      && fs'.readOnly == fs.readOnly
      && (forall q :: q in fs'.entries <==> q in fs.entries && !(q == path && IsFile(fs, q) && q !in fs.readOnly))
      && (forall q :: q in fs'.entries ==> fs'.entries[q] == fs.entries[q])
  {
  }

  /**
   * Removal takes away exactly the recorded paths that are files it may
   * remove, whatever fails along the way, and leaves every other entry as it was.
   */
  lemma {:induction false} RemoveRecordedEffect(fs: FileSystem, files: seq<string>)
    decreases |files|
    ensures var after := RemoveRecorded(fs, files);
      && after.readOnly == fs.readOnly
      && (forall q :: q in after.entries <==> q in fs.entries && !(q in RecordedPaths(files) && IsFile(fs, q) && q !in fs.readOnly))
      && (forall q :: q in after.entries ==> after.entries[q] == fs.entries[q])
  {
    if files != [] {
      var path := Parse(files[0]);
      var removed := RemoveFile(fs, path);
      var fs' := if Exists(fs, path) && removed.Ok? then removed.value else fs;
      RemoveOnce(fs, path);
      RemoveRecordedEffect(fs', files[1..]);
      RecordedPathsCons(files);
    }
  }

  /** The whole of `disable_skin_mod`; `None` in the result means nothing was saved. */
  function DisableOutcome(fs: FileSystem, gameRootPath: string, stored: StoredRegistry, modPath: string, now: int)
    : Outcome<Option<SkinRegistry>>
  {
    var root := Parse(gameRootPath);
    if !IsDir(fs, root) then Outcome(fs, Err(InvalidGameRoot(gameRootPath)))
    else match LoadRegistry(stored)
      case Err(e) => Outcome(fs, Err(e))
      case Ok(registry) =>
        var skins := registry.installedSkins;
        match Position(skins, PathOf, modPath)
        case None => Outcome(fs, Err(ModNotFound(modPath)))
        case Some(idx) =>
          if !skins[idx].enabled then Outcome(fs, Ok(None))
          else
            var after := RemoveRecorded(fs, skins[idx].installedFiles);
            Outcome(after, Ok(Some(SkinRegistry(skins[idx := skins[idx].(enabled := false, installedFiles := [])], now))))
  }

  /**
   * What disabling does: a mod already off is left alone and nothing is saved;
   * otherwise the mod is switched off with an empty record, no other entry
   * changes, and the disk loses exactly its recorded files that may be removed.
   */
  lemma DisableEffect(fs: FileSystem, gameRootPath: string, stored: StoredRegistry, modPath: string, now: int)
    requires IsDir(fs, Parse(gameRootPath)) && LoadRegistry(stored).Ok?
    requires HasKey(LoadRegistry(stored).value.installedSkins, PathOf, modPath)
    ensures var skins := LoadRegistry(stored).value.installedSkins;
      var idx := Position(skins, PathOf, modPath).value;
      var o := DisableOutcome(fs, gameRootPath, stored, modPath, now);
      && (!skins[idx].enabled ==> o == Outcome(fs, Ok(None)))
      && (skins[idx].enabled ==>
            && o.result.Ok? && o.result.value.Some?
            && |o.result.value.value.installedSkins| == |skins|
            && o.result.value.value.lastUpdated == now
            && !o.result.value.value.installedSkins[idx].enabled
            && o.result.value.value.installedSkins[idx].installedFiles == []
            && (forall j :: 0 <= j < |skins| && j != idx ==> o.result.value.value.installedSkins[j] == skins[j])
            && o.fs.readOnly == fs.readOnly
            && (forall q :: q in o.fs.entries <==>
                  q in fs.entries && !(q in RecordedPaths(skins[idx].installedFiles) && IsFile(fs, q) && q !in fs.readOnly))
            && (forall q :: q in o.fs.entries ==> o.fs.entries[q] == fs.entries[q]))
  {
    var skins := LoadRegistry(stored).value.installedSkins;
    var idx := Position(skins, PathOf, modPath).value;
    RemoveRecordedEffect(fs, skins[idx].installedFiles);
  }

  /** Disabling with an invalid game root, or a mod the registry lacks, fails without touching the disk. */
  lemma DisableEarlyErrors(fs: FileSystem, gameRootPath: string, stored: StoredRegistry, modPath: string, now: int)
    ensures var o := DisableOutcome(fs, gameRootPath, stored, modPath, now);
      && (!IsDir(fs, Parse(gameRootPath)) ==> o == Outcome(fs, Err(InvalidGameRoot(gameRootPath))))
      && (IsDir(fs, Parse(gameRootPath)) && LoadRegistry(stored).Ok?
          && !HasKey(LoadRegistry(stored).value.installedSkins, PathOf, modPath) ==>
            o == Outcome(fs, Err(ModNotFound(modPath))))
  {
  }

  /** `disable_skin_mod`. */
  method DisableSkinMod(fs: FileSystem, gameRootPath: string, stored: StoredRegistry, modPath: string, now: int)
    returns (o: Outcome<Option<SkinRegistry>>)
    ensures o == DisableOutcome(fs, gameRootPath, stored, modPath, now)
  {
    var gameRoot := Parse(gameRootPath);
    if !IsDir(fs, gameRoot) {
      return Outcome(fs, Err(InvalidGameRoot(gameRootPath)));
    }
    var loaded := LoadRegistry(stored);
    if loaded.Err? {
      return Outcome(fs, Err(loaded.error));
    }
    var registry := loaded.value;
    var found := Position(registry.installedSkins, PathOf, modPath);
    if found.None? {
      return Outcome(fs, Err(ModNotFound(modPath)));
    }
    var modIndex := found.value;
    var installedFiles := registry.installedSkins[modIndex].installedFiles;
    if !registry.installedSkins[modIndex].enabled {
      return Outcome(fs, Ok(None));
    }
    var disk := fs;
    var i := 0;
    while i < |installedFiles|
      invariant 0 <= i <= |installedFiles|
      invariant RemoveRecorded(disk, installedFiles[i..]) == RemoveRecorded(fs, installedFiles)
    {
      assert installedFiles[i..][1..] == installedFiles[i + 1..];
      var path := Parse(installedFiles[i]);
      if Exists(disk, path) {
        var removed := RemoveFile(disk, path);
        if removed.Ok? {
          disk := removed.value;
        }
      }
      i := i + 1;
    }
    var skins := registry.installedSkins;
    skins := skins[modIndex := skins[modIndex].(enabled := false, installedFiles := [])];
    return Outcome(disk, Ok(Some(SkinRegistry(skins, now))));
  }

  // ---------------------------------------------------------------------------
  // Enable, then disable
  // ---------------------------------------------------------------------------

  lemma PakDestinationWellFormed(root: Path, source: Path)
    requires WellFormed(root) && WellFormed(source) && FileName(source).Some?
    ensures WellFormed(PakDestination(root, source))
  {
    assert ValidPart(source.parts[|source.parts| - 1]);
  }

  lemma NativesDestinationWellFormed(root: Path, nativesDir: Path, source: Path)
    requires WellFormed(root) && WellFormed(source) && StripPrefix(source, nativesDir).Some?
    ensures WellFormed(Join(NativesOf(root), StripPrefix(source, nativesDir).value))
  {
    var rel := StripPrefix(source, nativesDir).value;
    assert rel.parts == source.parts[|nativesDir.parts|..];
    assert forall i :: 0 <= i < |rel.parts| ==> rel.parts[i] == source.parts[|nativesDir.parts| + i];
  }

  /** Every destination an enable writes is a well-formed path when the walks are. */
  lemma WrittenWellFormed(root: Path, modDir: Path, shallowWalk: seq<Path>, nativesWalk: seq<Path>,
                          paks: seq<Path>, natives: seq<Path>)
    requires WellFormed(root)
    requires forall s :: s in shallowWalk ==> WellFormed(s)
    requires forall s :: s in nativesWalk ==> WellFormed(s)
    requires forall d :: d in paks ==> exists s :: s in shallowWalk && FileName(s).Some? && d == PakDestination(root, s)
    requires forall d :: d in natives ==>
               exists s :: s in nativesWalk && StripPrefix(s, NativesOf(modDir)).Some?
                           && d == Join(NativesOf(root), StripPrefix(s, NativesOf(modDir)).value)
    ensures forall d :: d in paks + natives ==> WellFormed(d)
  {
    forall d | d in paks + natives
      ensures WellFormed(d)
    {
      if d in paks {
        var s :| s in shallowWalk && FileName(s).Some? && d == PakDestination(root, s);
        PakDestinationWellFormed(root, s);
      } else {
        var s :| s in nativesWalk && StripPrefix(s, NativesOf(modDir)).Some?
                 && d == Join(NativesOf(root), StripPrefix(s, NativesOf(modDir)).value);
        NativesDestinationWellFormed(root, NativesOf(modDir), s);
      }
    }
  }

  /** Reading back the rendered record of well-formed paths gives exactly those paths. */
  lemma RecordedWritten(written: seq<Path>)
    requires forall d :: d in written ==> WellFormed(d)
    ensures forall q :: q in RecordedPaths(RenderAll(written)) <==> q in written
  {
    var recorded := RenderAll(written);
    forall q | q in written
      ensures q in RecordedPaths(recorded)
    {
      var k :| 0 <= k < |written| && written[k] == q;
      ParseRender(q);
      assert recorded[k] in recorded;
    }
    forall q | q in RecordedPaths(recorded)
      ensures q in written
    {
      var f :| f in recorded && Parse(f) == q;
      var k :| 0 <= k < |recorded| && recorded[k] == f;
      ParseRender(written[k]);
    }
  }

  /** Removing the rendered record of what was written takes away every written path and nothing else. */
  lemma RemoveWritten(before: FileSystem, after: FileSystem, written: seq<Path>)
    requires WritesOnly(before, after, written)
    requires forall d :: d in written ==> WellFormed(d)
    ensures forall q :: q in RecordedPaths(RenderAll(written)) <==> q in written
    ensures var gone := RemoveRecorded(after, RenderAll(written));
      && (forall d :: d in written ==> !Exists(gone, d))
      && (forall q :: q in after.entries && q !in written ==> q in gone.entries && gone.entries[q] == after.entries[q])
  {
    RemoveRecordedEffect(after, RenderAll(written));
    RecordedWritten(written);
  }


  /** Disabling an enabled mod on the registry an enable saved removes what the enable recorded. */
  lemma DisableSaved(fs: FileSystem, gameRootPath: string, saved: SkinRegistry, modPath: string, idx: nat,
                     content: string, later: int)
    requires IsDir(fs, Parse(gameRootPath)) && content != ""
    requires Position(saved.installedSkins, PathOf, modPath) == Some(idx) && saved.installedSkins[idx].enabled
    ensures DisableOutcome(fs, gameRootPath, Stored(content, Some(saved)), modPath, later)
         == Outcome(RemoveRecorded(fs, saved.installedSkins[idx].installedFiles),
                    Ok(Some(SkinRegistry(saved.installedSkins[idx := saved.installedSkins[idx].(enabled := false, installedFiles := [])], later))))
  {
  }

  /**
   * Enabling and then disabling the same mod removes every file the enable
   * installed and switches the mod off with an empty record; the rest of the
   * disk is as the enable left it.
   */
  lemma EnableThenDisable(fs: FileSystem, gameRootPath: string, stored: StoredRegistry, modPath: string,
                          shallowWalk: seq<Path>, nativesWalk: seq<Path>, now: int, content: string, later: int)
    requires EnableOutcome(fs, gameRootPath, stored, modPath, shallowWalk, nativesWalk, now).result.Ok?
    requires forall s :: s in shallowWalk ==> WellFormed(s)
    requires forall s :: s in nativesWalk ==> WellFormed(s)
    requires content != ""
    ensures var e := EnableOutcome(fs, gameRootPath, stored, modPath, shallowWalk, nativesWalk, now);
      var saved := e.result.value;
      var idx := Position(LoadRegistry(stored).value.installedSkins, PathOf, modPath).value;
      var d := DisableOutcome(e.fs, gameRootPath, Stored(content, Some(saved)), modPath, later);
      var recorded := saved.installedSkins[idx].installedFiles;
      && d.result == Ok(Some(SkinRegistry(saved.installedSkins[idx := saved.installedSkins[idx].(enabled := false, installedFiles := [])], later)))
      && (forall f :: f in recorded ==> !Exists(d.fs, Parse(f)))
      && (forall q :: q in e.fs.entries && q !in RecordedPaths(recorded) ==> q in d.fs.entries && d.fs.entries[q] == e.fs.entries[q])
  {
    var root := Parse(gameRootPath);
    var modDir := Parse(modPath);
    var skins := LoadRegistry(stored).value.installedSkins;
    var idx := Position(skins, PathOf, modPath).value;
    var e := EnableOutcome(fs, gameRootPath, stored, modPath, shallowWalk, nativesWalk, now);
    assert e == EnableFound(fs, root, modDir, skins, idx, shallowWalk, nativesWalk, now);
    var pakStep := InstallPaks(fs, root, shallowWalk);
    var nativesStep := NativesPhase(pakStep.fs, root, modDir, nativesWalk);
    var paks := pakStep.result.value;
    var natives := nativesStep.result.value;
    assert e == Outcome(nativesStep.fs,
      Ok(SkinRegistry(skins[idx := skins[idx].(enabled := true, installedFiles := RenderAll(paks + natives))], now)));
    InstallPaksWrites(fs, root, shallowWalk);
    NativesPhaseWrites(pakStep.fs, root, modDir, nativesWalk);
    WritesOnlyCompose(fs, pakStep.fs, nativesStep.fs, paks, natives);
    var saved := e.result.value;
    var written := paks + natives;
    var recorded := RenderAll(written);
    assert saved.installedSkins[idx] == skins[idx].(enabled := true, installedFiles := recorded);
    ParseWellFormed(gameRootPath);
    WrittenWellFormed(root, modDir, shallowWalk, nativesWalk, paks, natives);
    PositionUpdate(skins, PathOf, modPath, idx, skins[idx].(enabled := true, installedFiles := recorded));
    DisableSaved(e.fs, gameRootPath, saved, modPath, idx, content, later);
    RemoveWritten(fs, e.fs, written);
  }
}
