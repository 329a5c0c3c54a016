/**
 * The conflict-aware skin registry of skinextract.rs. Each command loads the
 * registry file, works on the game directory and, when it succeeds, saves the
 * updated registry; the commands are methods returning the disk as they leave it
 * together with the registry that was saved or the error that stopped them.
 */
module SkinExtract {
  import opened Base
  import opened Paths
  import opened Disk
  import opened Keyed
  import opened Manifest

  datatype SkinMod = SkinMod(
    name: string,
    path: string,               // identifier: the mod folder under fossmodmanager/mods
    enabled: bool,
    thumbnailPath: Option<string>,
    author: Option<string>,
    version: Option<string>,
    description: Option<string>,
    files: seq<ModFile>,
    installedTimestamp: int)

  datatype SkinRegistry = SkinRegistry(installedMods: seq<SkinMod>, lastUpdated: int)

  /** What reading `skinmods_registry.json` gives; `parsed` is what decoding makes of the text. */
  datatype StoredRegistry =
    | Absent                                       // the file does not exist
    | Vanished                                     // it existed but reading reports NotFound
    | Unreadable                                   // any other read error
    | Stored(content: string, parsed: Option<SkinRegistry>)

  datatype SkinError =
    | InvalidGameRoot(gameRootPath: string)
    | RegistryReadFailed
    | RegistryParseFailed
    | ModNotFound(modPath: string)
    | ConflictRenameFailed(relativePath: string, cause: IoError)
    | EnableRenameFailed(relativePath: string, cause: IoError)
    | CreateDirFailed(dir: Path, cause: IoError)
    | CopyFailed(relativePath: string, cause: IoError)
    | DisableRenameFailed(relativePath: string, cause: IoError)
    | InvalidFileName(filePath: string)

  /** The disk after a step, and what the step produced or why it stopped. */
  datatype Outcome<T> = Outcome(fs: FileSystem, result: Result<T, SkinError>)

  /** A conflict: a target path and the enabled mod that currently claims it. */
  type Conflict = (string, string)

  function PathOf(m: SkinMod): string { m.path }

  function RelOf(f: ModFile): string { f.relativePath }

  /** `ModRegistry::default()`. */
  const EmptyRegistry := SkinRegistry([], 0)

  /** `load_registry`: a missing or empty file is an empty registry. */
  function LoadRegistry(stored: StoredRegistry): (r: Result<SkinRegistry, SkinError>)
    ensures stored.Absent? || stored.Vanished? ==> r == Ok(EmptyRegistry)
    ensures stored.Stored? && stored.content == "" ==> r == Ok(EmptyRegistry)
    ensures r.Err? <==> stored.Unreadable? || (stored.Stored? && stored.content != "" && stored.parsed.None?)
  {
    match stored
    case Absent => Ok(EmptyRegistry)
    case Vanished => Ok(EmptyRegistry)
    case Unreadable => Err(RegistryReadFailed)
    case Stored(content, parsed) =>
      if content == "" then Ok(EmptyRegistry)
      else if parsed.None? then Err(RegistryParseFailed)
      else Ok(parsed.value)
  }

  /** `game_root.join(relative_path)`. */
  function TargetOf(root: Path, relativePath: string): Path
  {
    Join(root, Parse(relativePath))
  }

  // ---------------------------------------------------------------------------
  // Conflict detection
  // ---------------------------------------------------------------------------

  /** `m` competes with the mod at `modPath`: it is enabled and is another mod. */
  predicate Competes(m: SkinMod, modPath: string)
  {
    m.enabled && m.path != modPath
  }

  predicate Claims(m: SkinMod, modPath: string, rel: string)
  {
    Competes(m, modPath) && HasKey(m.files, RelOf, rel)
  }

  /**
   * The mod whose claim on `rel` stands: the last competing mod, in registry
   * order, that ships a file with that target path.
   */
  function LastOwner(mods: seq<SkinMod>, modPath: string, rel: string): (r: Option<string>)
    ensures r.Some? ==> r.value != modPath
  {
    if mods == [] then None
    else
      var n := |mods|;
      if Claims(mods[n - 1], modPath, rel) then Some(mods[n - 1].path)
      else LastOwner(mods[..n - 1], modPath, rel)
  }

  /** There is a standing owner exactly when some mod claims the path. */
  lemma {:induction false} LastOwnerNoneIffUnclaimed(mods: seq<SkinMod>, modPath: string, rel: string)
    ensures LastOwner(mods, modPath, rel).None? <==> forall i :: 0 <= i < |mods| ==> !Claims(mods[i], modPath, rel)
  {
    if mods != [] {
      var n := |mods|;
      if !Claims(mods[n - 1], modPath, rel) {
        LastOwnerNoneIffUnclaimed(mods[..n - 1], modPath, rel);
        assert forall i :: 0 <= i < n - 1 ==> mods[..n - 1][i] == mods[i];
      }
    }
  }

  /** The standing owner claims the path and no later mod does. */
  lemma {:induction false} LastOwnerIsLastClaimant(mods: seq<SkinMod>, modPath: string, rel: string)
    ensures LastOwner(mods, modPath, rel).Some? ==>
              exists i :: 0 <= i < |mods| && Claims(mods[i], modPath, rel)
                          && mods[i].path == LastOwner(mods, modPath, rel).value
                          && forall k :: i < k < |mods| ==> !Claims(mods[k], modPath, rel)
  {
    if mods != [] {
      var n := |mods|;
      if !Claims(mods[n - 1], modPath, rel) {
        LastOwnerIsLastClaimant(mods[..n - 1], modPath, rel);
        assert forall i :: 0 <= i < n - 1 ==> mods[..n - 1][i] == mods[i];
      } else {
        assert Claims(mods[n - 1], modPath, rel);
      }
    }
  }

  /**
   * The conflicts enabling the mod at `modPath` with `files` raises: one per file
   * whose target path another enabled mod claims, in file order, each naming the
   * standing claimant.
   */
  function ExpectedConflicts(mods: seq<SkinMod>, modPath: string, files: seq<ModFile>): (r: seq<Conflict>)
    ensures |r| <= |files|
    ensures forall i :: 0 <= i < |r| ==> r[i].1 != modPath
  {
    if files == [] then []
    else
      var n := |files|;
      var rest := ExpectedConflicts(mods, modPath, files[..n - 1]);
      var f := files[n - 1];
      match LastOwner(mods, modPath, f.relativePath)
      case None => rest
      case Some(owner) => rest + [(f.relativePath, owner)]
  }

  /**
   * Every reported conflict names an incoming target and its standing owner, every
   * incoming target with an owner is reported, and with no other mod enabled
   * nothing is.
   */
  lemma {:induction false} ConflictsAreStandingClaims(mods: seq<SkinMod>, modPath: string, files: seq<ModFile>)
    ensures var r := ExpectedConflicts(mods, modPath, files);
      forall i :: 0 <= i < |r| ==> LastOwner(mods, modPath, r[i].0) == Some(r[i].1) && HasKey(files, RelOf, r[i].0)
    ensures var r := ExpectedConflicts(mods, modPath, files);
      forall j :: 0 <= j < |files| && LastOwner(mods, modPath, files[j].relativePath).Some? ==>
        (files[j].relativePath, LastOwner(mods, modPath, files[j].relativePath).value) in r
    ensures (forall i :: 0 <= i < |mods| ==> !Competes(mods[i], modPath)) ==> ExpectedConflicts(mods, modPath, files) == []
  {
    if files != [] {
      var n := |files|;
      ConflictsAreStandingClaims(mods, modPath, files[..n - 1]);
      assert forall j :: 0 <= j < n - 1 ==> files[..n - 1][j] == files[j];
      if forall i :: 0 <= i < |mods| ==> !Competes(mods[i], modPath) {
        LastOwnerNoneIffUnclaimed(mods, modPath, files[n - 1].relativePath);
      }
    }
  }

  /** One more incoming file adds at most its own conflict. */
  lemma ExpectedConflictsStep(mods: seq<SkinMod>, modPath: string, files: seq<ModFile>, k: nat)
    requires k < |files|
    ensures ExpectedConflicts(mods, modPath, files[..k + 1])
         == ExpectedConflicts(mods, modPath, files[..k])
            + match LastOwner(mods, modPath, files[k].relativePath)
              case None => []
              case Some(owner) => [(files[k].relativePath, owner)]
  {
    assert files[..k + 1][..k] == files[..k];
  }

  /** The enabled mods other than the one at `modPath`, in registry order. */
  function EnabledOthers(mods: seq<SkinMod>, modPath: string): (r: seq<SkinMod>)
    ensures forall i :: 0 <= i < |r| ==> Competes(r[i], modPath)
  {
    if mods == [] then []
    else
      var n := |mods|;
      EnabledOthers(mods[..n - 1], modPath) + (if Competes(mods[n - 1], modPath) then [mods[n - 1]] else [])
  }

  /** The (target, owner) pairs a mod contributes to the index, in file order. */
  function FileClaims(m: SkinMod): (r: seq<Conflict>)
    ensures |r| == |m.files|
    ensures forall j :: 0 <= j < |r| ==> r[j] == (m.files[j].relativePath, m.path)
  {
    seq(|m.files|, j requires 0 <= j < |m.files| => (m.files[j].relativePath, m.path))
  }

  function AllClaims(ms: seq<SkinMod>): seq<Conflict>
  {
    if ms == [] then [] else AllClaims(ms[..|ms| - 1]) + FileClaims(ms[|ms| - 1])
  }

  /** The map built by inserting `claims` in order: a later insert overwrites. */
  function Index(claims: seq<Conflict>): map<string, string>
  {
    if claims == [] then map[]
    else
      var n := |claims|;
      Index(claims[..n - 1])[claims[n - 1].0 := claims[n - 1].1]
  }

  /** Inserting two runs of claims is inserting the first, then letting the second win. */
  lemma {:induction false} IndexAppend(a: seq<Conflict>, b: seq<Conflict>)
    ensures Index(a + b) == Index(a) + Index(b)
  {
    if b == [] {
      assert a + b == a;
    } else {
      var n := |b|;
      assert (a + b)[..|a + b| - 1] == a + b[..n - 1];
      IndexAppend(a, b[..n - 1]);
    }
  }

  /** One mod's claims map each of its target paths to the mod's own path. */
  lemma {:induction false} IndexFileClaims(m: SkinMod, k: nat)
    requires k <= |m.files|
    ensures forall rel :: rel in Index(FileClaims(m)[..k]) <==> HasKey(m.files[..k], RelOf, rel)
    ensures forall rel :: rel in Index(FileClaims(m)[..k]) ==> Index(FileClaims(m)[..k])[rel] == m.path
  {
    if k > 0 {
      IndexFileClaims(m, k - 1);
      ClaimsGrow([], m, k - 1);
      assert [] + FileClaims(m)[..k] == FileClaims(m)[..k];
      assert [] + FileClaims(m)[..k - 1] == FileClaims(m)[..k - 1];
      IndexSnoc(FileClaims(m)[..k - 1], (m.files[k - 1].relativePath, m.path));
      forall rel
        ensures HasKey(m.files[..k], RelOf, rel) <==> HasKey(m.files[..k - 1], RelOf, rel) || RelOf(m.files[k - 1]) == rel
      {
        HasKeyPrefix(m.files, RelOf, rel, k);
      }
    }
  }

  /** The index built from the enabled mods names, for each target, exactly its standing claimant. */
  lemma {:induction false} IndexIsLastOwner(mods: seq<SkinMod>, modPath: string)
    ensures forall rel :: rel in Index(AllClaims(EnabledOthers(mods, modPath)))
                          <==> LastOwner(mods, modPath, rel).Some?
    ensures forall rel :: rel in Index(AllClaims(EnabledOthers(mods, modPath))) ==>
              Index(AllClaims(EnabledOthers(mods, modPath)))[rel] == LastOwner(mods, modPath, rel).value
  {
    if mods != [] {
      var n := |mods|;
      var init := mods[..n - 1];
      var last := mods[n - 1];
      IndexIsLastOwner(init, modPath);
      var prev := EnabledOthers(init, modPath);
      if Competes(last, modPath) {
        assert EnabledOthers(mods, modPath) == prev + [last];
        assert (prev + [last])[..|prev|] == prev;
        assert AllClaims(prev + [last]) == AllClaims(prev) + FileClaims(last);
        IndexAppend(AllClaims(prev), FileClaims(last));
        IndexFileClaims(last, |last.files|);
        assert FileClaims(last)[..|last.files|] == FileClaims(last);
        assert last.files[..|last.files|] == last.files;
      } else {
        assert EnabledOthers(mods, modPath) == prev;
      }
    }
  }

  lemma IndexSnoc(claims: seq<Conflict>, c: Conflict)
    ensures Index(claims + [c]) == Index(claims)[c.0 := c.1]
  {
    assert (claims + [c])[..|claims|] == claims;
  }

  lemma AllClaimsStep(ms: seq<SkinMod>, i: nat)
    requires i < |ms|
    ensures AllClaims(ms[..i + 1]) == AllClaims(ms[..i]) + FileClaims(ms[i])
  {
    assert ms[..i + 1][..i] == ms[..i];
  }

  lemma ClaimsGrow(before: seq<Conflict>, m: SkinMod, j: nat)
    requires j < |m.files|
    ensures before + FileClaims(m)[..j + 1] == (before + FileClaims(m)[..j]) + [(m.files[j].relativePath, m.path)]
  {
    assert FileClaims(m)[..j + 1] == FileClaims(m)[..j] + [FileClaims(m)[j]];
  }

  /** The first half of `find_conflicts_with_enabled_mods`: the target-to-owner map of the given mods. */
  method IndexEnabledFiles(enabledMods: seq<SkinMod>) returns (enabledFiles: map<string, string>)
    ensures enabledFiles == Index(AllClaims(enabledMods))
  {
    enabledFiles := map[];
    var i := 0;
    while i < |enabledMods|
      invariant 0 <= i <= |enabledMods|
      invariant enabledFiles == Index(AllClaims(enabledMods[..i]))
    {
      var entry := enabledMods[i];
      var before := AllClaims(enabledMods[..i]);
      assert before + FileClaims(entry)[..0] == before;
      var j := 0;
      while j < |entry.files|
        invariant 0 <= j <= |entry.files|
        invariant enabledFiles == Index(before + FileClaims(entry)[..j])
      {
        ClaimsGrow(before, entry, j);
        IndexSnoc(before + FileClaims(entry)[..j], (entry.files[j].relativePath, entry.path));
        enabledFiles := enabledFiles[entry.files[j].relativePath := entry.path];
        j := j + 1;
      }
      assert FileClaims(entry)[..j] == FileClaims(entry);
      AllClaimsStep(enabledMods, i);
      i := i + 1;
    }
    assert enabledMods[..i] == enabledMods;
  }

  /** `find_conflicts_with_enabled_mods`: index the enabled mods' files, then look up each incoming file. */
  method FindConflicts(registry: SkinRegistry, modFiles: seq<ModFile>, modPath: string) returns (conflicts: seq<Conflict>)
    ensures conflicts == ExpectedConflicts(registry.installedMods, modPath, modFiles)
  {
    var enabledFiles := IndexEnabledFiles(EnabledOthers(registry.installedMods, modPath));
    IndexIsLastOwner(registry.installedMods, modPath);
    conflicts := [];
    var k := 0;
    while k < |modFiles|
      invariant 0 <= k <= |modFiles|
      invariant conflicts == ExpectedConflicts(registry.installedMods, modPath, modFiles[..k])
    {
      var file := modFiles[k];
      ExpectedConflictsStep(registry.installedMods, modPath, modFiles, k);
      if file.relativePath in enabledFiles {
        conflicts := conflicts + [(file.relativePath, enabledFiles[file.relativePath])];
      }
      k := k + 1;
    }
    assert modFiles[..k] == modFiles;
  }

  // ---------------------------------------------------------------------------
  // Conflict resolution
  // ---------------------------------------------------------------------------

  /**
   * `after` is `before` with some file records switched off, each of them one
   * that `conflicts` names together with its mod's path; nothing else differs.
   */
  predicate OnlyNamedFilesOff(before: seq<SkinMod>, after: seq<SkinMod>, conflicts: seq<Conflict>)
  {
    |after| == |before|
    && forall i :: 0 <= i < |before| ==>
         after[i].(files := before[i].files) == before[i]
         && |after[i].files| == |before[i].files|
         && forall j :: 0 <= j < |before[i].files| ==>
              after[i].files[j] == before[i].files[j]
              || (after[i].files[j] == before[i].files[j].(enabled := false)
                  && (before[i].files[j].relativePath, before[i].path) in conflicts)
  }

  /** One conflict: park the claimant's copy of the target and switch its record off. */
  function ResolveOne(fs: FileSystem, root: Path, mods: seq<SkinMod>, c: Conflict): (o: Outcome<seq<SkinMod>>)
    ensures o.result.Ok? ==> OnlyNamedFilesOff(mods, o.result.value, [c])
    ensures !Exists(fs, TargetOf(root, c.0)) ==> o == Outcome(fs, Ok(mods))
    ensures o.fs != fs ==> Exists(o.fs, Disabled(TargetOf(root, c.0)))
                           && o.fs.entries[Disabled(TargetOf(root, c.0))] == fs.entries[TargetOf(root, c.0)]
    ensures o.result.Err? ==> o.fs == fs
    ensures Position(mods, PathOf, c.1).None? ==> o == Outcome(fs, Ok(mods))
    ensures var i := Position(mods, PathOf, c.1);
      i.Some? && Position(mods[i.value].files, RelOf, c.0).None? ==> o == Outcome(fs, Ok(mods))
    ensures var i := Position(mods, PathOf, c.1);
      i.Some? && Position(mods[i.value].files, RelOf, c.0).Some? && Exists(fs, TargetOf(root, c.0)) && o.result.Ok? ==>
        !o.result.value[i.value].files[Position(mods[i.value].files, RelOf, c.0).value].enabled
  {
    match Position(mods, PathOf, c.1)
    case None => Outcome(fs, Ok(mods))
    case Some(i) =>
      match Position(mods[i].files, RelOf, c.0)
      case None => Outcome(fs, Ok(mods))
      case Some(j) =>
        var target := TargetOf(root, c.0);
        if !Exists(fs, target) then Outcome(fs, Ok(mods))
        else match Rename(fs, target, Disabled(target))
          case Err(e) => Outcome(fs, Err(ConflictRenameFailed(c.0, e)))
          case Ok(fs') =>
            SwitchOffNamedFile(mods, i, j, c);
            var m := mods[i];
            Outcome(fs', Ok(mods[i := m.(files := m.files[j := m.files[j].(enabled := false)])]))
  }

  /** Switching off the record a conflict names changes nothing else. */
  lemma SwitchOffNamedFile(mods: seq<SkinMod>, i: nat, j: nat, c: Conflict)
    requires i < |mods| && j < |mods[i].files|
    requires mods[i].path == c.1 && mods[i].files[j].relativePath == c.0
    ensures var m := mods[i];
      OnlyNamedFilesOff(mods, mods[i := m.(files := m.files[j := m.files[j].(enabled := false)])], [c])
  {
  }

  /** `resolve_conflicts`: the conflicts in order; the first failure stops the run. */
  function ResolveAll(fs: FileSystem, root: Path, mods: seq<SkinMod>, conflicts: seq<Conflict>): (o: Outcome<seq<SkinMod>>)
    ensures o.result.Ok? ==> OnlyNamedFilesOff(mods, o.result.value, conflicts)
    decreases |conflicts|
  {
    if conflicts == [] then Outcome(fs, Ok(mods))
    else
      var step := ResolveOne(fs, root, mods, conflicts[0]);
      match step.result
      case Err(e) => Outcome(step.fs, Err(e))
      case Ok(mods') =>
        var o := ResolveAll(step.fs, root, mods', conflicts[1..]);
        if o.result.Ok? then
          OnlyNamedFilesOffCompose(mods, mods', o.result.value, conflicts);
          o
        else o
  }

  lemma OnlyNamedFilesOffCompose(a: seq<SkinMod>, b: seq<SkinMod>, c: seq<SkinMod>, conflicts: seq<Conflict>)
    requires conflicts != []
    requires OnlyNamedFilesOff(a, b, [conflicts[0]])
    requires OnlyNamedFilesOff(b, c, conflicts[1..])
    ensures OnlyNamedFilesOff(a, c, conflicts)
  {
    forall i, j | 0 <= i < |a| && 0 <= j < |a[i].files|
      ensures c[i].files[j] == a[i].files[j]
              || (c[i].files[j] == a[i].files[j].(enabled := false)
                  && (a[i].files[j].relativePath, a[i].path) in conflicts)
    {
      assert b[i].path == a[i].path;
      assert b[i].files[j].relativePath == a[i].files[j].relativePath;
      assert conflicts == [conflicts[0]] + conflicts[1..];
    }
  }

  /** Resolution never touches a mod's own flag, its other fields or a file no conflict names. */
  lemma ResolveSparesUnnamedMods(fs: FileSystem, root: Path, mods: seq<SkinMod>, conflicts: seq<Conflict>, i: nat)
    requires i < |mods|
    requires forall k :: 0 <= k < |conflicts| ==> conflicts[k].1 != mods[i].path
    requires ResolveAll(fs, root, mods, conflicts).result.Ok?
    ensures ResolveAll(fs, root, mods, conflicts).result.value[i] == mods[i]
  {
    var after := ResolveAll(fs, root, mods, conflicts).result.value;
    assert |after[i].files| == |mods[i].files|;
    forall j | 0 <= j < |mods[i].files|
      ensures after[i].files[j] == mods[i].files[j]
    {
    }
    assert after[i].files == mods[i].files;
    assert after[i] == after[i].(files := mods[i].files);
  }

  /** `resolve_conflicts`, one conflict at a time. */
  method ResolveConflicts(fs: FileSystem, gameRoot: Path, mods: seq<SkinMod>, conflicts: seq<Conflict>)
    returns (o: Outcome<seq<SkinMod>>)
    ensures o == ResolveAll(fs, gameRoot, mods, conflicts)
  {
    var disk := fs;
    var current := mods;
    var k := 0;
    while k < |conflicts|
      invariant 0 <= k <= |conflicts|
      invariant ResolveAll(fs, gameRoot, mods, conflicts) == ResolveAll(disk, gameRoot, current, conflicts[k..])
    {
      var (filePath, modPath) := conflicts[k];
      assert conflicts[k..][1..] == conflicts[k + 1..];
      var modEntry := Position(current, PathOf, modPath);
      if modEntry.Some? {
        var i := modEntry.value;
        var fileEntry := Position(current[i].files, RelOf, filePath);
        if fileEntry.Some? {
          var j := fileEntry.value;
          var gameFilePath := TargetOf(gameRoot, filePath);
          var disabledPath := Disabled(gameFilePath);
          if Exists(disk, gameFilePath) {
            var renamed := Rename(disk, gameFilePath, disabledPath);
            if renamed.Err? {
              return Outcome(disk, Err(ConflictRenameFailed(filePath, renamed.error)));
            }
            disk := renamed.value;
            var m := current[i];
            current := current[i := m.(files := m.files[j := m.files[j].(enabled := false)])];
          }
        }
      }
      k := k + 1;
    }
    return Outcome(disk, Ok(current));
  }

  // ---------------------------------------------------------------------------
  // Enabling and disabling
  // ---------------------------------------------------------------------------

  /**
   * Installing one file from the mod folder: when the original is there, the
   * target's directory is created and the original copied onto the target.
   */
  function InstallOriginal(fs: FileSystem, root: Path, f: ModFile): (o: Outcome<Unit>)
    ensures o.result.Ok? && Exists(fs, Parse(f.originalPath)) ==>
              Exists(o.fs, TargetOf(root, f.relativePath))
              && o.fs.entries[TargetOf(root, f.relativePath)] == fs.entries[Parse(f.originalPath)]
    ensures !Exists(fs, Parse(f.originalPath)) ==> o == Outcome(fs, Ok(Unit))
  {
    var target := TargetOf(root, f.relativePath);
    var original := Parse(f.originalPath);
    if !Exists(fs, original) then Outcome(fs, Ok(Unit))
    else
      var prepared := match Parent(target)
        case None => Ok(fs)
        case Some(parent) => CreateDirAll(fs, parent);
      if prepared.Err? then Outcome(fs, Err(CreateDirFailed(Parent(target).value, prepared.error)))
      else
        assert Exists(prepared.value, original);
        match Copy(prepared.value, original, target)
        case Err(e) => Outcome(prepared.value, Err(CopyFailed(f.relativePath, e)))
        case Ok(fs') => Outcome(fs', Ok(Unit))
  }

  /**
   * Putting one file in place: a parked copy is renamed back; otherwise, when the
   * target is missing, the original is installed.
   */
  function EnableFile(fs: FileSystem, root: Path, f: ModFile): (o: Outcome<Unit>)
    ensures o.result.Ok? && Exists(fs, Disabled(TargetOf(root, f.relativePath))) ==>
              Exists(o.fs, TargetOf(root, f.relativePath))
              && o.fs.entries[TargetOf(root, f.relativePath)] == fs.entries[Disabled(TargetOf(root, f.relativePath))]
    ensures o.result.Ok? && !Exists(fs, Disabled(TargetOf(root, f.relativePath)))
              && !Exists(fs, TargetOf(root, f.relativePath)) && Exists(fs, Parse(f.originalPath)) ==>
              Exists(o.fs, TargetOf(root, f.relativePath))
              && o.fs.entries[TargetOf(root, f.relativePath)] == fs.entries[Parse(f.originalPath)]
    ensures !Exists(fs, Disabled(TargetOf(root, f.relativePath)))
              && (Exists(fs, TargetOf(root, f.relativePath)) || !Exists(fs, Parse(f.originalPath))) ==>
              o == Outcome(fs, Ok(Unit))
  {
    var target := TargetOf(root, f.relativePath);
    var parked := Disabled(target);
    if Exists(fs, parked) then
      match Rename(fs, parked, target)
      case Err(e) => Outcome(fs, Err(EnableRenameFailed(f.relativePath, e)))
      case Ok(fs') => Outcome(fs', Ok(Unit))
    else if !Exists(fs, target) then InstallOriginal(fs, root, f)
    else Outcome(fs, Ok(Unit))
  }

  /**
   * The files in order; the first failure stops the run. When the files stay
   * out of each other's way, a run that succeeds has placed every file and
   * changed nothing but the targets, their parked names and new directories
   * above the targets.
   */
  function EnableFiles(fs: FileSystem, root: Path, files: seq<ModFile>): (o: Outcome<Unit>)
    ensures WellFormed(root) && Independent(root, files) && o.result.Ok? ==>
              (forall f :: f in files ==> PlacedFile(fs, o.fs, root, f))
              && ChangedOnlyAt(fs, o.fs, Targets(root, files))
    decreases |files|
  {
    if files == [] then Outcome(fs, Ok(Unit))
    else
      var step := EnableFile(fs, root, files[0]);
      if step.result.Err? then step
      else
        var rest := EnableFiles(step.fs, root, files[1..]);
        if WellFormed(root) && Independent(root, files) && rest.result.Ok? then
          IndependentTail(root, files);
          EnableFileEffect(fs, root, files[0]);
          EnableFilesStep(fs, root, files, step.fs, rest.fs);
          rest
        else rest
  }

  /** Parking one file: an existing target is renamed to its `.disabled` name. */
  function DisableFile(fs: FileSystem, root: Path, f: ModFile): (o: Outcome<Unit>)
    ensures o.result.Ok? && Exists(fs, TargetOf(root, f.relativePath)) ==>
              Exists(o.fs, Disabled(TargetOf(root, f.relativePath)))
              && o.fs.entries[Disabled(TargetOf(root, f.relativePath))] == fs.entries[TargetOf(root, f.relativePath)]
    ensures !Exists(fs, TargetOf(root, f.relativePath)) ==> o == Outcome(fs, Ok(Unit))
    ensures o.result.Err? ==> o.fs == fs
  {
    var target := TargetOf(root, f.relativePath);
    if !Exists(fs, target) then Outcome(fs, Ok(Unit))
    else match Rename(fs, target, Disabled(target))
      case Err(e) => Outcome(fs, Err(DisableRenameFailed(f.relativePath, e)))
      case Ok(fs') => Outcome(fs', Ok(Unit))
  }

  /**
   * The files in order, each existing target parked; the first failure stops the
   * run. When the targets are made of normal components and none is another's
   * `.disabled` name, a run that succeeds has parked exactly the targets that
   * existed and touched nothing else.
   */
  function DisableFiles(fs: FileSystem, root: Path, files: seq<ModFile>): (o: Outcome<Unit>)
    ensures WellFormed(root) && NoParkedTargets(Targets(root, files)) && o.result.Ok? ==>
              Parked(fs, o.fs, Targets(root, files))
    ensures o.result.Err? ==> o.result.error.DisableRenameFailed?
    decreases |files|
  {
    if files == [] then Outcome(fs, Ok(Unit))
    else
      var step := DisableFile(fs, root, files[0]);
      if step.result.Err? then step
      else
        TargetsCons(root, files);
        var rest := DisableFiles(step.fs, root, files[1..]);
        if WellFormed(root) && NoParkedTargets(Targets(root, files)) && rest.result.Ok? then
          DisableFilesStep(fs, root, files, step.fs, rest.fs);
          rest
        else rest
  }

  /** The targets of `files` below `root`. */
  function Targets(root: Path, files: seq<ModFile>): set<Path>
  {
    set f | f in files :: TargetOf(root, f.relativePath)
  }

  lemma TargetsCons(root: Path, files: seq<ModFile>)
    requires files != []
    ensures Targets(root, files) == {TargetOf(root, files[0].relativePath)} + Targets(root, files[1..])
  {
    assert files == [files[0]] + files[1..];
    forall t | t in Targets(root, files)
      ensures t in {TargetOf(root, files[0].relativePath)} + Targets(root, files[1..])
    {
      var f :| f in files && t == TargetOf(root, f.relativePath);
      if f != files[0] {
        assert f in files[1..];
      }
    }
  }

  lemma TargetsWellFormed(root: Path, files: seq<ModFile>)
    requires WellFormed(root)
    ensures forall t :: t in Targets(root, files) ==> WellFormed(t)
  {
    forall t | t in Targets(root, files)
      ensures WellFormed(t)
    {
      var f :| f in files && t == TargetOf(root, f.relativePath);
      ParseWellFormed(f.relativePath);
    }
  }

  /** No target is the `.disabled` name of a target. */
  predicate NoParkedTargets(ts: set<Path>)
  {
    forall s, t :: s in ts && t in ts ==> s != Disabled(t)
  }

  /** The `.disabled` names of the targets of `ts` that exist on `fs`. */
  function ParkedNames(fs: FileSystem, ts: set<Path>): set<Path>
  {
    set t | t in ts && t in fs.entries :: Disabled(t)
  }

  /**
   * `after` is `before` with every existing target of `ts` renamed to its
   * `.disabled` name: no target is left, each parked name holds its target's
   * bytes, and every other path is as it was.
   */
  ghost predicate Parked(before: FileSystem, after: FileSystem, ts: set<Path>)
  {
    && after.readOnly == before.readOnly
    && (forall t :: t in ts ==> t !in after.entries)
    && (forall t :: t in ts && t in before.entries ==>
          Disabled(t) in after.entries && after.entries[Disabled(t)] == before.entries[t])
    && (forall q :: q !in ts && q !in ParkedNames(before, ts) ==>
          (q in after.entries <==> q in before.entries)
          && (q in before.entries ==> after.entries[q] == before.entries[q]))
  }

  /** Parking one file parks exactly its target, if it exists. */
  lemma DisableFileParks(fs: FileSystem, root: Path, f: ModFile)
    requires WellFormed(root)
    requires DisableFile(fs, root, f).result.Ok?
    ensures Parked(fs, DisableFile(fs, root, f).fs, {TargetOf(root, f.relativePath)})
  {
    var t := TargetOf(root, f.relativePath);
    ParseWellFormed(f.relativePath);
    DisabledDiffers(t);
    if t in fs.entries {
      assert ParkedNames(fs, {t}) == {Disabled(t)};
    } else {
      assert ParkedNames(fs, {t}) == {};
    }
  }

  /** Parking `A` and then `B` parks `A + B`, when no target is a parked name. */
  lemma ParkedCompose(a: FileSystem, b: FileSystem, c: FileSystem, A: set<Path>, B: set<Path>)
    requires forall t :: t in A + B ==> WellFormed(t)
    requires NoParkedTargets(A + B)
    requires Parked(a, b, A) && Parked(b, c, B)
    ensures Parked(a, c, A + B)
  {
    forall t | t in A + B
      ensures t !in c.entries
    {
      if t !in B {
        assert t !in ParkedNames(b, B);
      }
    }
    forall t | t in A + B && t in a.entries
      ensures Disabled(t) in c.entries && c.entries[Disabled(t)] == a.entries[t]
    {
      if t in A {
        if Disabled(t) in ParkedNames(b, B) {
          var t' :| t' in B && t' in b.entries && Disabled(t') == Disabled(t);
          DisabledInjective(t', t);
        }
      } else {
        assert t !in ParkedNames(a, A);
      }
    }
    forall q | q !in A + B && q !in ParkedNames(a, A + B)
      ensures (q in c.entries <==> q in a.entries) && (q in a.entries ==> c.entries[q] == a.entries[q])
    {
      assert q !in ParkedNames(a, A);
    }
  }

  /** One step of the disable loop followed by the rest of it parks every target of the list. */
  lemma DisableFilesStep(fs: FileSystem, root: Path, files: seq<ModFile>, mid: FileSystem, last: FileSystem)
    requires files != [] && WellFormed(root) && NoParkedTargets(Targets(root, files))
    requires DisableFile(fs, root, files[0]) == Outcome(mid, Ok(Unit))
    requires Parked(mid, last, Targets(root, files[1..]))
    ensures Parked(fs, last, Targets(root, files))
  {
    var A, B := {TargetOf(root, files[0].relativePath)}, Targets(root, files[1..]);
    TargetsCons(root, files);
    assert Targets(root, files) == A + B;
    DisableFileParks(fs, root, files[0]);
    TargetsWellFormed(root, files);
    ParkedCompose(fs, mid, last, A, B);
  }

  // ---------------------------------------------------------------------------
  // What the enable loop does to the disk
  // ---------------------------------------------------------------------------

  /** The `.disabled` names of the targets of `ts`. */
  function DisabledNames(ts: set<Path>): set<Path>
  {
    set t | t in ts :: Disabled(t)
  }

  /** The directories above the targets of `ts`, the root excluded: where installing may create directories. */
  function DirsAbove(ts: set<Path>): set<Path>
  {
    set t, i | t in ts && 1 <= i < |t.parts| :: Path(t.absolute, t.parts[..i])
  }

  /**
   * The files' targets, their `.disabled` names and their originals stay out of
   * each other's way: the targets are distinct, none is a parked name, no
   * original is a target or a parked name, and neither a target nor a parked
   * name lies on the way to a target.
   */
  predicate Independent(root: Path, files: seq<ModFile>)
  {
    var ts := Targets(root, files);
    && (forall i, j :: 0 <= i < |files| && 0 <= j < |files| && i != j ==>
          TargetOf(root, files[i].relativePath) != TargetOf(root, files[j].relativePath))
    && NoParkedTargets(ts)
    && (forall f, t :: f in files && t in ts ==> Parse(f.originalPath) != t && Parse(f.originalPath) != Disabled(t))
    && (forall t :: t in ts ==> t !in DirsAbove(ts) && Disabled(t) !in DirsAbove(ts))
  }

  /**
   * One file as the enable loop leaves it, judged against the disk it started
   * from: a parked copy is back on the target and its parked name is free; else
   * a target that was there is kept; else the original, when there was one, is
   * on the target.
   */
  ghost predicate PlacedFile(before: FileSystem, after: FileSystem, root: Path, f: ModFile)
  {
    var t := TargetOf(root, f.relativePath);
    var src := Parse(f.originalPath);
    if Disabled(t) in before.entries then
      t in after.entries && after.entries[t] == before.entries[Disabled(t)] && Disabled(t) !in after.entries
    else if t in before.entries then
      t in after.entries && after.entries[t] == before.entries[t]
    else
      src in before.entries ==> t in after.entries && after.entries[t] == before.entries[src]
  }

  /**
   * `after` differs from `before` only at the paths of `ts`, at their `.disabled`
   * names, and in new directories above the paths of `ts`.
   */
  ghost predicate ChangedOnlyAt(before: FileSystem, after: FileSystem, ts: set<Path>)
  {
    && after.readOnly == before.readOnly
    && (forall q :: q !in ts && q !in DisabledNames(ts) && q in before.entries ==>
          q in after.entries && after.entries[q] == before.entries[q])
    && (forall q :: q !in ts && q !in DisabledNames(ts) && q !in before.entries && q in after.entries ==>
          after.entries[q] == Dir && q in DirsAbove(ts))
  }

  /** Two disks agree on `q`: both lack it, or both hold the same entry there. */
  ghost predicate AgreeAt(x: FileSystem, y: FileSystem, q: Path)
  {
    (q in x.entries <==> q in y.entries) && (q in x.entries ==> x.entries[q] == y.entries[q])
  }

  /** A path away from every changed place keeps its entry, or its absence. */
  lemma Untouched(x: FileSystem, y: FileSystem, ts: set<Path>, q: Path)
    requires ChangedOnlyAt(x, y, ts)
    requires q !in ts && q !in DisabledNames(ts) && q !in DirsAbove(ts)
    ensures AgreeAt(x, y, q)
  {
  }

  lemma DirsAboveUnion(A: set<Path>, B: set<Path>)
    ensures DirsAbove(A) <= DirsAbove(A + B) && DirsAbove(B) <= DirsAbove(A + B)
  {
    forall q | q in DirsAbove(A) + DirsAbove(B)
      ensures q in DirsAbove(A + B)
    {
      var t, i :| t in A + B && 1 <= i < |t.parts| && q == Path(t.absolute, t.parts[..i]);
    }
  }

  /** Putting one file in place places it and changes nothing but its target, its parked name and directories above. */
  lemma EnableFileEffect(fs: FileSystem, root: Path, f: ModFile)
    requires WellFormed(root)
    requires EnableFile(fs, root, f).result.Ok?
    ensures PlacedFile(fs, EnableFile(fs, root, f).fs, root, f)
    ensures ChangedOnlyAt(fs, EnableFile(fs, root, f).fs, {TargetOf(root, f.relativePath)})
  {
    var t := TargetOf(root, f.relativePath);
    var o := EnableFile(fs, root, f);
    ParseWellFormed(f.relativePath);
    DisabledDiffers(t);
    assert DisabledNames({t}) == {Disabled(t)};
    if !Exists(fs, Disabled(t)) && !Exists(fs, t) && Exists(fs, Parse(f.originalPath)) {
      InstallFrame(fs, root, f);
    }
  }

  /** Installing an original changes the target and creates directories above it, nothing else. */
  lemma InstallFrame(fs: FileSystem, root: Path, f: ModFile)
    requires InstallOriginal(fs, root, f).result.Ok?
    ensures var o := InstallOriginal(fs, root, f);
      var t := TargetOf(root, f.relativePath);
      && o.fs.readOnly == fs.readOnly
      && (forall q :: q != t && q in fs.entries ==> q in o.fs.entries && o.fs.entries[q] == fs.entries[q])
      && (forall q :: q != t && q !in fs.entries && q in o.fs.entries ==> o.fs.entries[q] == Dir && q in DirsAbove({t}))
  {
    var t := TargetOf(root, f.relativePath);
    var original := Parse(f.originalPath);
    if Exists(fs, original) {
      var prepared := if Parent(t).Some? then CreateDirAll(fs, Parent(t).value) else Ok(fs);
      var done := Copy(prepared.value, original, t).value;
      assert InstallOriginal(fs, root, f).fs == done;
      if Parent(t).Some? {
        var parent := Parent(t).value;
        forall q | q in AncestorsAndSelf(parent)
          ensures q in DirsAbove({t})
        {
          var i :| 1 <= i <= |parent.parts| && q == Path(parent.absolute, parent.parts[..i]);
          assert parent.parts[..i] == t.parts[..i];
        }
      }
    }
  }

  lemma IndependentTail(root: Path, files: seq<ModFile>)
    requires files != [] && Independent(root, files)
    ensures Independent(root, files[1..])
  {
    var tail := files[1..];
    TargetsCons(root, files);
    DirsAboveUnion({TargetOf(root, files[0].relativePath)}, Targets(root, tail));
    forall i, j | 0 <= i < |tail| && 0 <= j < |tail| && i != j
      ensures TargetOf(root, tail[i].relativePath) != TargetOf(root, tail[j].relativePath)
    {
      assert tail[i] == files[i + 1] && tail[j] == files[j + 1];
    }
    forall f | f in tail
      ensures f in files
    {
      var k :| 0 <= k < |tail| && tail[k] == f;
      assert files[k + 1] == f;
    }
  }

  /** One step of the enable loop followed by the rest of it places every file of the list. */
  lemma EnableFilesStep(fs: FileSystem, root: Path, files: seq<ModFile>, mid: FileSystem, last: FileSystem)
    requires files != [] && WellFormed(root) && Independent(root, files)
    requires PlacedFile(fs, mid, root, files[0])
    requires ChangedOnlyAt(fs, mid, {TargetOf(root, files[0].relativePath)})
    requires forall f :: f in files[1..] ==> PlacedFile(mid, last, root, f)
    requires ChangedOnlyAt(mid, last, Targets(root, files[1..]))
    ensures forall f :: f in files ==> PlacedFile(fs, last, root, f)
    ensures ChangedOnlyAt(fs, last, Targets(root, files))
  {
    forall f | f in files
      ensures PlacedFile(fs, last, root, f)
    {
      if f == files[0] {
        EnableHeadPersists(fs, root, files, mid, last);
      } else {
        var k :| 0 <= k < |files| && files[k] == f;
        assert files[1..][k - 1] == f;
        EnableTailUnaffected(fs, root, files, mid, last, f);
      }
    }
    TargetsCons(root, files);
    ChangedOnlyAtCompose(fs, mid, last, {TargetOf(root, files[0].relativePath)}, Targets(root, files[1..]));
  }

  /** The first file's placement survives the rest of the loop. */
  lemma EnableHeadPersists(fs: FileSystem, root: Path, files: seq<ModFile>, mid: FileSystem, last: FileSystem)
    requires files != [] && WellFormed(root) && Independent(root, files)
    requires PlacedFile(fs, mid, root, files[0])
    requires ChangedOnlyAt(mid, last, Targets(root, files[1..]))
    ensures PlacedFile(fs, last, root, files[0])
  {
    var t0 := TargetOf(root, files[0].relativePath);
    var ts, B := Targets(root, files), Targets(root, files[1..]);
    TargetsCons(root, files);
    TargetsWellFormed(root, files);
    DirsAboveUnion({t0}, B);
    assert t0 in ts;
    assert t0 !in B;
    assert Disabled(t0) !in DisabledNames(B) by {
      if Disabled(t0) in DisabledNames(B) {
        var t :| t in B && Disabled(t0) == Disabled(t);
        DisabledInjective(t0, t);
      }
    }
    Untouched(mid, last, B, t0);
    Untouched(mid, last, B, Disabled(t0));
  }

  /** A later file's target and parked name are away from every place the first file changes. */
  lemma TailApart(root: Path, files: seq<ModFile>, f: ModFile)
    requires files != [] && WellFormed(root) && Independent(root, files) && f in files[1..]
    ensures var t0, t := TargetOf(root, files[0].relativePath), TargetOf(root, f.relativePath);
      && t !in {t0} && t !in DisabledNames({t0}) && t !in DirsAbove({t0})
      && Disabled(t) !in {t0} && Disabled(t) !in DisabledNames({t0}) && Disabled(t) !in DirsAbove({t0})
      && Parse(f.originalPath) != t0 && Parse(f.originalPath) != Disabled(t0)
  {
    var t0 := TargetOf(root, files[0].relativePath);
    var t := TargetOf(root, f.relativePath);
    TargetsCons(root, files);
    TargetsWellFormed(root, files);
    DirsAboveUnion({t0}, Targets(root, files[1..]));
    assert DisabledNames({t0}) == {Disabled(t0)};
    var k :| 0 <= k < |files[1..]| && files[1..][k] == f;
    assert files[k + 1] == f;
    assert t != t0;
    assert t in Targets(root, files);
    assert f in files;
    assert Disabled(t) != Disabled(t0) by {
      if Disabled(t) == Disabled(t0) {
        DisabledInjective(t, t0);
      }
    }
  }

  /** A later file sees, at its own paths, the disk the loop started from. */
  lemma EnableTailUnaffected(fs: FileSystem, root: Path, files: seq<ModFile>, mid: FileSystem, last: FileSystem, f: ModFile)
    requires files != [] && WellFormed(root) && Independent(root, files)
    requires ChangedOnlyAt(fs, mid, {TargetOf(root, files[0].relativePath)})
    requires f in files[1..] && PlacedFile(mid, last, root, f)
    ensures PlacedFile(fs, last, root, f)
  {
    var t0 := TargetOf(root, files[0].relativePath);
    var t := TargetOf(root, f.relativePath);
    TailApart(root, files, f);
    Untouched(fs, mid, {t0}, t);
    Untouched(fs, mid, {t0}, Disabled(t));
  }

  /** Changes confined to `A` and then to `B` are confined to `A + B`. */
  lemma ChangedOnlyAtCompose(a: FileSystem, b: FileSystem, c: FileSystem, A: set<Path>, B: set<Path>)
    requires ChangedOnlyAt(a, b, A) && ChangedOnlyAt(b, c, B)
    ensures ChangedOnlyAt(a, c, A + B)
  {
    DirsAboveUnion(A, B);
    assert DisabledNames(A) <= DisabledNames(A + B);
    assert DisabledNames(B) <= DisabledNames(A + B);
  }

  /** Parking a file and putting it back restores the disk, when nothing was parked under that name before. */
  lemma DisableThenEnableFile(fs: FileSystem, gameRootPath: string, f: ModFile)
    requires var t := TargetOf(Parse(gameRootPath), f.relativePath);
      IsFile(fs, t) && !Exists(fs, Disabled(t)) && t !in fs.readOnly && Disabled(t) !in fs.readOnly
    ensures DisableFile(fs, Parse(gameRootPath), f).result.Ok?
    ensures EnableFile(DisableFile(fs, Parse(gameRootPath), f).fs, Parse(gameRootPath), f) == Outcome(fs, Ok(Unit))
  {
    var root := Parse(gameRootPath);
    var t := TargetOf(root, f.relativePath);
    JoinParsedWellFormed(gameRootPath, f.relativePath);
    DisabledDiffers(t);
    ParkAndRestore(fs, t, Disabled(t));
    var parked := Rename(fs, t, Disabled(t)).value;
    assert DisableFile(fs, root, f) == Outcome(parked, Ok(Unit));
  }

  /** `enable_skin_mod` from the point where the mod has been found at `idx`. */
  function EnableFound(fs: FileSystem, root: Path, mods: seq<SkinMod>, idx: nat, now: int): Outcome<SkinRegistry>
    requires idx < |mods|
  {
    var files := mods[idx].files;
    var conflicts := ExpectedConflicts(mods, mods[idx].path, files);
    var resolved := if conflicts == [] then Outcome(fs, Ok(mods)) else ResolveAll(fs, root, mods, conflicts);
    match resolved.result
    case Err(e) => Outcome(resolved.fs, Err(e))
    case Ok(mods') =>
      var placed := EnableFiles(resolved.fs, root, files);
      if placed.result.Err? then Outcome(placed.fs, Err(placed.result.error))
      else Outcome(placed.fs, Ok(SkinRegistry(mods'[idx := mods'[idx].(enabled := true)], now)))
  }

  /** The whole of `enable_skin_mod`. */
  function EnableOutcome(fs: FileSystem, gameRootPath: string, stored: StoredRegistry, modPath: string, now: int)
    : Outcome<SkinRegistry>
  {
    var root := Parse(gameRootPath);
    if !IsDir(fs, root) then Outcome(fs, Err(InvalidGameRoot(gameRootPath)))
    else match LoadRegistry(stored)
      case Err(e) => Outcome(fs, Err(e))
      case Ok(registry) =>
        match Position(registry.installedMods, PathOf, modPath)
        case None => Outcome(fs, Err(ModNotFound(modPath)))
        case Some(idx) => EnableFound(fs, root, registry.installedMods, idx, now)
  }

  /** The whole of `disable_skin_mod`. */
  function DisableOutcome(fs: FileSystem, gameRootPath: string, stored: StoredRegistry, modPath: string, now: int)
    : Outcome<SkinRegistry>
  {
    var root := Parse(gameRootPath);
    if !IsDir(fs, root) then Outcome(fs, Err(InvalidGameRoot(gameRootPath)))
    else match LoadRegistry(stored)
      case Err(e) => Outcome(fs, Err(e))
      case Ok(registry) =>
        var mods := registry.installedMods;
        match Position(mods, PathOf, modPath)
        case None => Outcome(fs, Err(ModNotFound(modPath)))
        case Some(idx) =>
          var parked := DisableFiles(fs, root, mods[idx].files);
          if parked.result.Err? then Outcome(parked.fs, Err(parked.result.error))
          else Outcome(parked.fs, Ok(SkinRegistry(mods[idx := mods[idx].(enabled := false)], now)))
  }

  /**
   * What enabling saves: the mod ends up enabled with its own records untouched,
   * and every other mod keeps its flag and fields, losing at most the records of
   * files the incoming mod takes over from it.
   */
  lemma EnableFoundEffect(fs: FileSystem, root: Path, mods: seq<SkinMod>, idx: nat, now: int)
    requires idx < |mods|
    ensures var o := EnableFound(fs, root, mods, idx, now);
      o.result.Ok? ==>
        && o.result.value.installedMods[idx] == mods[idx].(enabled := true)
        && o.result.value.lastUpdated == now
        && OnlyNamedFilesOff(mods[idx := mods[idx].(enabled := true)], o.result.value.installedMods,
                             ExpectedConflicts(mods, mods[idx].path, mods[idx].files))
  {
    var conflicts := ExpectedConflicts(mods, mods[idx].path, mods[idx].files);
    var resolved := if conflicts == [] then Outcome(fs, Ok(mods)) else ResolveAll(fs, root, mods, conflicts);
    var o := EnableFound(fs, root, mods, idx, now);
    if o.result.Ok? {
      var mods' := resolved.result.value;
      assert o.result.value == SkinRegistry(mods'[idx := mods'[idx].(enabled := true)], now);
      ExpectedResolution(fs, root, mods, idx);
      FlagPreservesOnlyNamedFilesOff(mods, mods', conflicts, idx);
    }
  }

  /** Resolving the expected conflicts leaves the mod being enabled as it was. */
  lemma ExpectedResolution(fs: FileSystem, root: Path, mods: seq<SkinMod>, idx: nat)
    requires idx < |mods|
    ensures var conflicts := ExpectedConflicts(mods, mods[idx].path, mods[idx].files);
      var resolved := if conflicts == [] then Outcome(fs, Ok(mods)) else ResolveAll(fs, root, mods, conflicts);
      resolved.result.Ok? ==>
        OnlyNamedFilesOff(mods, resolved.result.value, conflicts) && resolved.result.value[idx] == mods[idx]
  {
    var conflicts := ExpectedConflicts(mods, mods[idx].path, mods[idx].files);
    if conflicts != [] && ResolveAll(fs, root, mods, conflicts).result.Ok? {
      ResolveSparesUnnamedMods(fs, root, mods, conflicts, idx);
    }
  }

  lemma FlagPreservesOnlyNamedFilesOff(mods: seq<SkinMod>, mods': seq<SkinMod>, conflicts: seq<Conflict>, idx: nat)
    requires idx < |mods| && OnlyNamedFilesOff(mods, mods', conflicts) && mods'[idx] == mods[idx]
    ensures OnlyNamedFilesOff(mods[idx := mods[idx].(enabled := true)], mods'[idx := mods[idx].(enabled := true)], conflicts)
  {
  }

  /** Enabling a path the registry does not hold fails and touches nothing. */
  lemma EnableUnknownMod(fs: FileSystem, gameRootPath: string, stored: StoredRegistry, modPath: string, now: int)
    requires IsDir(fs, Parse(gameRootPath)) && LoadRegistry(stored).Ok?
    requires !HasKey(LoadRegistry(stored).value.installedMods, PathOf, modPath)
    ensures EnableOutcome(fs, gameRootPath, stored, modPath, now) == Outcome(fs, Err(ModNotFound(modPath)))
  {
  }

  /**
   * What disabling promises: the mod is switched off with its file records as
   * they were, no other mod changes, and every target that existed is parked
   * under its `.disabled` name with nothing else on the disk touched.
   */
  lemma DisableEffect(fs: FileSystem, gameRootPath: string, stored: StoredRegistry, modPath: string, now: int)
    ensures var o := DisableOutcome(fs, gameRootPath, stored, modPath, now);
      o.result.Ok? ==>
        var mods := LoadRegistry(stored).value.installedMods;
        var idx := Position(mods, PathOf, modPath).value;
        && o.result.value == SkinRegistry(mods[idx := mods[idx].(enabled := false)], now)
        && o.result.value.installedMods[idx].files == mods[idx].files
        && !o.result.value.installedMods[idx].enabled
    ensures var o := DisableOutcome(fs, gameRootPath, stored, modPath, now);
      o.result.Ok? ==>
        var mods := LoadRegistry(stored).value.installedMods;
        var ts := Targets(Parse(gameRootPath), mods[Position(mods, PathOf, modPath).value].files);
        NoParkedTargets(ts) ==> Parked(fs, o.fs, ts)
    ensures var o := DisableOutcome(fs, gameRootPath, stored, modPath, now);
      IsDir(fs, Parse(gameRootPath)) && LoadRegistry(stored).Ok?
        && !HasKey(LoadRegistry(stored).value.installedMods, PathOf, modPath) ==>
        o == Outcome(fs, Err(ModNotFound(modPath)))
  {
    ParseWellFormed(gameRootPath);
  }

  /**
   * What enabling does to the disk when no enabled mod claims any of the mod's
   * targets: every file is placed (a parked copy back on its target, else a
   * present target kept, else the original copied in), and nothing changes but
   * the targets, their parked names and new directories above the targets.
   */
  lemma EnableWithoutConflictsEffect(fs: FileSystem, gameRootPath: string, stored: StoredRegistry, modPath: string, now: int)
    ensures var o := EnableOutcome(fs, gameRootPath, stored, modPath, now);
      o.result.Ok? ==>
        var root := Parse(gameRootPath);
        var mods := LoadRegistry(stored).value.installedMods;
        var files := mods[Position(mods, PathOf, modPath).value].files;
        ExpectedConflicts(mods, modPath, files) == [] && Independent(root, files) ==>
          && (forall f :: f in files ==> PlacedFile(fs, o.fs, root, f))
          && ChangedOnlyAt(fs, o.fs, Targets(root, files))
  {
    ParseWellFormed(gameRootPath);
  }

  /** The body of the file loop of `enable_skin_mod`: one file put in place. */
  method PlaceFile(disk: FileSystem, gameRoot: Path, file: ModFile) returns (o: Outcome<Unit>)
    ensures o == EnableFile(disk, gameRoot, file)
  {
    var gameFilePath := TargetOf(gameRoot, file.relativePath);
    var disabledPath := Disabled(gameFilePath);
    if Exists(disk, disabledPath) {
      var renamed := Rename(disk, disabledPath, gameFilePath);
      if renamed.Err? {
        return Outcome(disk, Err(EnableRenameFailed(file.relativePath, renamed.error)));
      }
      return Outcome(renamed.value, Ok(Unit));
    }
    if Exists(disk, gameFilePath) {
      return Outcome(disk, Ok(Unit));
    }
    var originalFile := Parse(file.originalPath);
    if !Exists(disk, originalFile) {
      return Outcome(disk, Ok(Unit));
    }
    var prepared := disk;
    var parent := Parent(gameFilePath);
    if parent.Some? {
      var created := CreateDirAll(disk, parent.value);
      if created.Err? {
        return Outcome(disk, Err(CreateDirFailed(parent.value, created.error)));
      }
      prepared := created.value;
    }
    var copied := Copy(prepared, originalFile, gameFilePath);
    if copied.Err? {
      return Outcome(prepared, Err(CopyFailed(file.relativePath, copied.error)));
    }
    return Outcome(copied.value, Ok(Unit));
  }

  /** The file loop of `enable_skin_mod`: the files in order, stopping at the first failure. */
  method PlaceFiles(start: FileSystem, gameRoot: Path, modFiles: seq<ModFile>) returns (o: Outcome<Unit>)
    ensures o == EnableFiles(start, gameRoot, modFiles)
  {
    var disk := start;
    var i := 0;
    assert modFiles[i..] == modFiles;
    while i < |modFiles|
      invariant 0 <= i <= |modFiles|
      invariant EnableFiles(start, gameRoot, modFiles) == EnableFiles(disk, gameRoot, modFiles[i..])
    {
      assert modFiles[i..][1..] == modFiles[i + 1..];
      var step := PlaceFile(disk, gameRoot, modFiles[i]);
      if step.result.Err? {
        return step;
      }
      disk := step.fs;
      i := i + 1;
    }
    return Outcome(disk, Ok(Unit));
  }

  /** `enable_skin_mod`. */
  method EnableSkinMod(fs: FileSystem, gameRootPath: string, stored: StoredRegistry, modPath: string, now: int)
    returns (o: Outcome<SkinRegistry>)
    ensures o == EnableOutcome(fs, gameRootPath, stored, modPath, now)
  {
    var gameRoot := Parse(gameRootPath);
    if !IsDir(fs, gameRoot) {
      return Outcome(fs, Err(InvalidGameRoot(gameRootPath)));
    }
    var loaded := LoadRegistry(stored);
    if loaded.Err? {
      return Outcome(fs, Err(loaded.error));
    }
    var registry := loaded.value;
    var found := Position(registry.installedMods, PathOf, modPath);
    if found.None? {
      return Outcome(fs, Err(ModNotFound(modPath)));
    }
    var modIndex := found.value;
    var modFiles := registry.installedMods[modIndex].files;
    var modPathClone := registry.installedMods[modIndex].path;
    var conflicts := FindConflicts(registry, modFiles, modPathClone);
    var disk := fs;
    var mods := registry.installedMods;
    if conflicts != [] {
      var resolved := ResolveConflicts(disk, gameRoot, mods, conflicts);
      if resolved.result.Err? {
        return Outcome(resolved.fs, Err(resolved.result.error));
      }
      disk, mods := resolved.fs, resolved.result.value;
    }
    var placed := PlaceFiles(disk, gameRoot, modFiles);
    if placed.result.Err? {
      return Outcome(placed.fs, Err(placed.result.error));
    }
    disk := placed.fs;
    mods := mods[modIndex := mods[modIndex].(enabled := true)];
    return Outcome(disk, Ok(SkinRegistry(mods, now)));
  }

  /** `disable_skin_mod`. */
  method DisableSkinMod(fs: FileSystem, gameRootPath: string, stored: StoredRegistry, modPath: string, now: int)
    returns (o: Outcome<SkinRegistry>)
    ensures o == DisableOutcome(fs, gameRootPath, stored, modPath, now)
  {
    var gameRoot := Parse(gameRootPath);
    if !IsDir(fs, gameRoot) {
      return Outcome(fs, Err(InvalidGameRoot(gameRootPath)));
    }
    var loaded := LoadRegistry(stored);
    if loaded.Err? {
      return Outcome(fs, Err(loaded.error));
    }
    var registry := loaded.value;
    var found := Position(registry.installedMods, PathOf, modPath);
    if found.None? {
      return Outcome(fs, Err(ModNotFound(modPath)));
    }
    var modIndex := found.value;
    var files := registry.installedMods[modIndex].files;
    var disk := fs;
    var i := 0;
    while i < |files|
      invariant 0 <= i <= |files|
      invariant DisableFiles(fs, gameRoot, files) == DisableFiles(disk, gameRoot, files[i..])
    {
      var file := files[i];
      assert files[i..][1..] == files[i + 1..];
      var gameFilePath := TargetOf(gameRoot, file.relativePath);
      if Exists(disk, gameFilePath) {
        var renamed := Rename(disk, gameFilePath, Disabled(gameFilePath));
        if renamed.Err? {
          return Outcome(disk, Err(DisableRenameFailed(file.relativePath, renamed.error)));
        }
        disk := renamed.value;
      }
      i := i + 1;
    }
    var mods := registry.installedMods[modIndex := registry.installedMods[modIndex].(enabled := false)];
    return Outcome(disk, Ok(SkinRegistry(mods, now)));
  }

  /** `list_installed_skin_mods`: the registry's list as stored. */
  function ListInstalledSkinMods(stored: StoredRegistry): (r: Result<seq<SkinMod>, SkinError>)
    ensures r.Ok? <==> LoadRegistry(stored).Ok?
    ensures r.Ok? ==> r.value == LoadRegistry(stored).value.installedMods
  {
    match LoadRegistry(stored)
    case Err(e) => Err(e)
    case Ok(registry) => Ok(registry.installedMods)
  }

  // ---------------------------------------------------------------------------
  // Enabling over a conflict
  // ---------------------------------------------------------------------------

  /** With one enabled mod `a` sharing `b`'s single target, that target is `b`'s only conflict. */
  lemma SharedTargetConflict(a: SkinMod, b: SkinMod)
    requires a.enabled && a.path != b.path
    requires |a.files| == 1 && |b.files| == 1 && a.files[0].relativePath == b.files[0].relativePath
    ensures ExpectedConflicts([a, b], b.path, b.files) == [(b.files[0].relativePath, a.path)]
  {
    var rel := b.files[0].relativePath;
    var mods := [a, b];
    assert Claims(a, b.path, rel) by { assert RelOf(a.files[0]) == rel; }
    assert LastOwner(mods, b.path, rel) == Some(a.path) by {
      assert mods[..1] == [a];
      assert [a][..0] == [];
    }
    assert b.files[..0] == [];
  }

  /** Resolving that conflict parks the target and switches `a`'s record off. */
  lemma SharedTargetResolved(fs: FileSystem, root: Path, a: SkinMod, b: SkinMod)
    requires |a.files| == 1 && a.path != b.path
    requires var t := TargetOf(root, a.files[0].relativePath);
      Rename(fs, t, Disabled(t)).Ok?
    ensures var t := TargetOf(root, a.files[0].relativePath);
      ResolveAll(fs, root, [a, b], [(a.files[0].relativePath, a.path)])
      == Outcome(Rename(fs, t, Disabled(t)).value, Ok([a.(files := [a.files[0].(enabled := false)]), b]))
  {
    var c := (a.files[0].relativePath, a.path);
    var t := TargetOf(root, c.0);
    var fs1 := Rename(fs, t, Disabled(t)).value;
    var mods' := [a.(files := [a.files[0].(enabled := false)]), b];
    assert [c][1..] == [];
    assert Position([a, b], PathOf, a.path) == Some(0);
    assert Position(a.files, RelOf, a.files[0].relativePath) == Some(0);
    assert a.files[0 := a.files[0].(enabled := false)] == [a.files[0].(enabled := false)];
    assert [a, b][0 := [a, b][0].(files := [a.files[0].(enabled := false)])] == mods';
    assert Exists(fs, t);
    assert ResolveOne(fs, root, [a, b], c) == Outcome(fs1, Ok(mods'));
    assert ResolveAll(fs1, root, mods', []) == Outcome(fs1, Ok(mods'));
  }

  /** `enable_skin_mod` from the found mod on, once resolution and the enable loop are known to succeed. */
  lemma EnableFoundShape(fs: FileSystem, root: Path, mods: seq<SkinMod>, idx: nat, now: int,
                         resolvedFs: FileSystem, resolvedMods: seq<SkinMod>, placedFs: FileSystem)
    requires idx < |mods| && idx < |resolvedMods|
    requires var conflicts := ExpectedConflicts(mods, mods[idx].path, mods[idx].files);
      conflicts != [] && ResolveAll(fs, root, mods, conflicts) == Outcome(resolvedFs, Ok(resolvedMods))
    requires EnableFiles(resolvedFs, root, mods[idx].files) == Outcome(placedFs, Ok(Unit))
    ensures EnableFound(fs, root, mods, idx, now)
            == Outcome(placedFs, Ok(SkinRegistry(resolvedMods[idx := resolvedMods[idx].(enabled := true)], now)))
  {
  }

  /** Parking an entry under a free name and renaming it straight back restores the disk. */
  lemma ParkAndRestore(fs: FileSystem, t: Path, d: Path)
    requires t != d && Exists(fs, t) && !Exists(fs, d) && t !in fs.readOnly && d !in fs.readOnly && !IsDir(fs, d)
    ensures Rename(fs, t, d).Ok? && Rename(Rename(fs, t, d).value, d, t).Ok?
    ensures Rename(Rename(fs, t, d).value, d, t).value == fs
  {
    var fs1 := Rename(fs, t, d).value;
    var fs2 := Rename(fs1, d, t).value;
    assert fs2.entries == fs.entries;
  }

  /** With the target parked, the as-written loop finds the `.disabled` name taken and renames it back. */
  lemma AsWrittenRestoresParked(fs1: FileSystem, root: Path, files: seq<ModFile>)
    requires |files| == 1
    requires var t := TargetOf(root, files[0].relativePath);
      Exists(fs1, Disabled(t)) && Disabled(t) !in fs1.readOnly && t !in fs1.readOnly && !IsDir(fs1, t)
    ensures var t := TargetOf(root, files[0].relativePath);
      EnableFiles(fs1, root, files) == Outcome(Rename(fs1, Disabled(t), t).value, Ok(Unit))
  {
    assert files[1..] == [];
  }

  /**
   * Enabling mod `b` while the enabled mod `a` ships the same single target:
   * resolution parks `a`'s copy under `<target>.disabled`, and the enable loop
   * then finds that name taken and renames it straight back. The command
   * succeeds with `b` marked enabled and `a`'s record marked off, yet the game
   * file still holds `a`'s bytes and `b`'s original was never copied.
   */
  lemma EnableOverConflictKeepsLoserBytes(fs: FileSystem, gameRootPath: string, a: SkinMod, b: SkinMod, now: int)
    requires a.enabled && a.path != b.path
    requires |a.files| == 1 && |b.files| == 1 && a.files[0].relativePath == b.files[0].relativePath
    requires var t := TargetOf(Parse(gameRootPath), b.files[0].relativePath);
      IsFile(fs, t) && !Exists(fs, Disabled(t)) && t !in fs.readOnly && Disabled(t) !in fs.readOnly
    ensures var t := TargetOf(Parse(gameRootPath), b.files[0].relativePath);
      var o := EnableFound(fs, Parse(gameRootPath), [a, b], 1, now);
      && o.result.Ok?
      && o.result.value.installedMods[1].enabled
      && !o.result.value.installedMods[0].files[0].enabled
      && Exists(o.fs, t) && o.fs.entries[t] == fs.entries[t]
      && !Exists(o.fs, Disabled(t))
  {
    var root := Parse(gameRootPath);
    var rel := b.files[0].relativePath;
    var t := TargetOf(root, rel);
    JoinParsedWellFormed(gameRootPath, rel);
    DisabledDiffers(t);
    SharedTargetConflict(a, b);
    SharedTargetResolved(fs, root, a, b);
    ParkAndRestore(fs, t, Disabled(t));
    var fs1 := Rename(fs, t, Disabled(t)).value;
    var fs2 := Rename(fs1, Disabled(t), t).value;
    AsWrittenRestoresParked(fs1, root, b.files);
    var mods' := [a.(files := [a.files[0].(enabled := false)]), b];
    EnableFoundShape(fs, root, [a, b], 1, now, fs1, mods', fs2);
  }

  /** The targets resolution actually parked: conflicted targets present before it ran. */
  function Displaced(fs: FileSystem, root: Path, conflicts: seq<Conflict>): set<string>
  {
    set c | c in conflicts && Exists(fs, TargetOf(root, c.0)) :: c.0
  }

  /**
   * Putting one file in place after resolution, as the command evidently means
   * to: a target whose previous owner's copy was just parked gets the incoming
   * original; any other file is handled as before.
   */
  function EnableFileAfterResolve(fs: FileSystem, root: Path, f: ModFile, displaced: set<string>): Outcome<Unit>
  {
    if f.relativePath in displaced then InstallOriginal(fs, root, f) else EnableFile(fs, root, f)
  }

  function EnableFilesAfterResolve(fs: FileSystem, root: Path, files: seq<ModFile>, displaced: set<string>): Outcome<Unit>
    decreases |files|
  {
    if files == [] then Outcome(fs, Ok(Unit))
    else
      var step := EnableFileAfterResolve(fs, root, files[0], displaced);
      if step.result.Err? then step else EnableFilesAfterResolve(step.fs, root, files[1..], displaced)
  }

  /** `enable_skin_mod` from the found mod on, with displaced targets installed from the incoming mod. */
  function EnableFoundCorrected(fs: FileSystem, root: Path, mods: seq<SkinMod>, idx: nat, now: int): Outcome<SkinRegistry>
    requires idx < |mods|
  {
    var files := mods[idx].files;
    var conflicts := ExpectedConflicts(mods, mods[idx].path, files);
    var resolved := if conflicts == [] then Outcome(fs, Ok(mods)) else ResolveAll(fs, root, mods, conflicts);
    match resolved.result
    case Err(e) => Outcome(resolved.fs, Err(e))
    case Ok(mods') =>
      var placed := EnableFilesAfterResolve(resolved.fs, root, files, Displaced(fs, root, conflicts));
      if placed.result.Err? then Outcome(placed.fs, Err(placed.result.error))
      else Outcome(placed.fs, Ok(SkinRegistry(mods'[idx := mods'[idx].(enabled := true)], now)))
  }

  /** The whole of `enable_skin_mod` with the corrected file loop. */
  function EnableOutcomeCorrected(fs: FileSystem, gameRootPath: string, stored: StoredRegistry, modPath: string, now: int)
    : Outcome<SkinRegistry>
  {
    var root := Parse(gameRootPath);
    if !IsDir(fs, root) then Outcome(fs, Err(InvalidGameRoot(gameRootPath)))
    else match LoadRegistry(stored)
      case Err(e) => Outcome(fs, Err(e))
      case Ok(registry) =>
        match Position(registry.installedMods, PathOf, modPath)
        case None => Outcome(fs, Err(ModNotFound(modPath)))
        case Some(idx) => EnableFoundCorrected(fs, root, registry.installedMods, idx, now)
  }

  /** The corrected enable saves the same registry the command as written promises. */
  lemma EnableFoundCorrectedEffect(fs: FileSystem, root: Path, mods: seq<SkinMod>, idx: nat, now: int)
    requires idx < |mods|
    ensures var o := EnableFoundCorrected(fs, root, mods, idx, now);
      o.result.Ok? ==>
        && o.result.value.installedMods[idx] == mods[idx].(enabled := true)
        && o.result.value.lastUpdated == now
        && OnlyNamedFilesOff(mods[idx := mods[idx].(enabled := true)], o.result.value.installedMods,
                             ExpectedConflicts(mods, mods[idx].path, mods[idx].files))
  {
    var conflicts := ExpectedConflicts(mods, mods[idx].path, mods[idx].files);
    var resolved := if conflicts == [] then Outcome(fs, Ok(mods)) else ResolveAll(fs, root, mods, conflicts);
    var o := EnableFoundCorrected(fs, root, mods, idx, now);
    if o.result.Ok? {
      var mods' := resolved.result.value;
      assert o.result.value == SkinRegistry(mods'[idx := mods'[idx].(enabled := true)], now);
      ExpectedResolution(fs, root, mods, idx);
      FlagPreservesOnlyNamedFilesOff(mods, mods', conflicts, idx);
    }
  }

  /** The corrected file loop: a displaced target gets the incoming original, any other file is placed as before. */
  method PlaceFilesAfterResolve(start: FileSystem, gameRoot: Path, modFiles: seq<ModFile>, displaced: set<string>)
    returns (o: Outcome<Unit>)
    ensures o == EnableFilesAfterResolve(start, gameRoot, modFiles, displaced)
  {
    var disk := start;
    var i := 0;
    assert modFiles[i..] == modFiles;
    while i < |modFiles|
      invariant 0 <= i <= |modFiles|
      invariant EnableFilesAfterResolve(start, gameRoot, modFiles, displaced)
             == EnableFilesAfterResolve(disk, gameRoot, modFiles[i..], displaced)
    {
      assert modFiles[i..][1..] == modFiles[i + 1..];
      var step;
      if modFiles[i].relativePath in displaced {
        step := InstallOriginal(disk, gameRoot, modFiles[i]);
      } else {
        step := PlaceFile(disk, gameRoot, modFiles[i]);
      }
      if step.result.Err? {
        return step;
      }
      disk := step.fs;
      i := i + 1;
    }
    return Outcome(disk, Ok(Unit));
  }

  /** `enable_skin_mod` with the corrected file loop. */
  method EnableSkinModCorrected(fs: FileSystem, gameRootPath: string, stored: StoredRegistry, modPath: string, now: int)
    returns (o: Outcome<SkinRegistry>)
    ensures o == EnableOutcomeCorrected(fs, gameRootPath, stored, modPath, now)
  {
    var gameRoot := Parse(gameRootPath);
    if !IsDir(fs, gameRoot) {
      return Outcome(fs, Err(InvalidGameRoot(gameRootPath)));
    }
    var loaded := LoadRegistry(stored);
    if loaded.Err? {
      return Outcome(fs, Err(loaded.error));
    }
    var registry := loaded.value;
    var found := Position(registry.installedMods, PathOf, modPath);
    if found.None? {
      return Outcome(fs, Err(ModNotFound(modPath)));
    }
    var modIndex := found.value;
    var modFiles := registry.installedMods[modIndex].files;
    var conflicts := FindConflicts(registry, modFiles, registry.installedMods[modIndex].path);
    var displaced := set c | c in conflicts && Exists(fs, TargetOf(gameRoot, c.0)) :: c.0;
    var disk := fs;
    var mods := registry.installedMods;
    if conflicts != [] {
      var resolved := ResolveConflicts(disk, gameRoot, mods, conflicts);
      if resolved.result.Err? {
        return Outcome(resolved.fs, Err(resolved.result.error));
      }
      disk, mods := resolved.fs, resolved.result.value;
    }
    var placed := PlaceFilesAfterResolve(disk, gameRoot, modFiles, displaced);
    if placed.result.Err? {
      return Outcome(placed.fs, Err(placed.result.error));
    }
    mods := mods[modIndex := mods[modIndex].(enabled := true)];
    return Outcome(placed.fs, Ok(SkinRegistry(mods, now)));
  }

  /** The corrected enable from the found mod on, once resolution and the enable loop are known to succeed. */
  lemma EnableFoundCorrectedShape(fs: FileSystem, root: Path, mods: seq<SkinMod>, idx: nat, now: int,
                                  resolvedFs: FileSystem, resolvedMods: seq<SkinMod>, placedFs: FileSystem)
    requires idx < |mods| && idx < |resolvedMods|
    requires var conflicts := ExpectedConflicts(mods, mods[idx].path, mods[idx].files);
      && conflicts != [] && ResolveAll(fs, root, mods, conflicts) == Outcome(resolvedFs, Ok(resolvedMods))
      && EnableFilesAfterResolve(resolvedFs, root, mods[idx].files, Displaced(fs, root, conflicts))
         == Outcome(placedFs, Ok(Unit))
    ensures EnableFoundCorrected(fs, root, mods, idx, now)
            == Outcome(placedFs, Ok(SkinRegistry(resolvedMods[idx := resolvedMods[idx].(enabled := true)], now)))
  {
  }

  /** Where every directory above the target exists, installing the original copies it in and touches nothing else it need not. */
  lemma InstallIntoExistingDirs(fs: FileSystem, root: Path, f: ModFile)
    requires var t := TargetOf(root, f.relativePath);
      && t.parts != [] && !Exists(fs, t) && t !in fs.readOnly
      && IsFile(fs, Parse(f.originalPath))
      && forall q :: q in AncestorsAndSelf(Parent(t).value) ==> IsDir(fs, q)
    ensures var t := TargetOf(root, f.relativePath);
      InstallOriginal(fs, root, f)
      == Outcome(WithEntries(fs, fs.entries[t := fs.entries[Parse(f.originalPath)]]), Ok(Unit))
  {
    var t := TargetOf(root, f.relativePath);
    var parent := Parent(t).value;
    assert CreateDirAll(fs, parent) == Ok(WithEntries(fs, fs.entries + map[]));
    assert fs.entries + map[] == fs.entries;
  }

  /**
   * Parking a file target under its `.disabled` name: the parked copy holds the
   * target's bytes, the target is gone, and every other entry (the incoming
   * original, the directories above the target) is untouched.
   */
  lemma ParkTarget(fs: FileSystem, t: Path, original: Path)
    requires WellFormed(t) && t.parts != []
    requires IsFile(fs, t) && !Exists(fs, Disabled(t)) && t !in fs.readOnly && Disabled(t) !in fs.readOnly
    requires IsFile(fs, original) && original != t && original != Disabled(t)
    requires forall q :: q in AncestorsAndSelf(Parent(t).value) ==> IsDir(fs, q)
    ensures Rename(fs, t, Disabled(t)).Ok?
    ensures var fs1 := Rename(fs, t, Disabled(t)).value;
      && !Exists(fs1, t) && t !in fs1.readOnly
      && Exists(fs1, Disabled(t)) && fs1.entries[Disabled(t)] == fs.entries[t]
      && IsFile(fs1, original) && fs1.entries[original] == fs.entries[original]
      && forall q :: q in AncestorsAndSelf(Parent(t).value) ==> IsDir(fs1, q)
  {
    DisabledIsSibling(t);
    WithSuffixExtendsLast(t, ".disabled");
    var fs1 := Rename(fs, t, Disabled(t)).value;
    forall q | q in AncestorsAndSelf(Parent(t).value)
      ensures IsDir(fs1, q)
    {
      assert |q.parts| < |t.parts|;
    }
  }

  /** After resolution parked the target, the corrected loop installs the incoming original there. */
  lemma CorrectedPlacesIncoming(fs1: FileSystem, root: Path, files: seq<ModFile>, displaced: set<string>)
    requires |files| == 1 && files[0].relativePath in displaced
    requires var t := TargetOf(root, files[0].relativePath);
      && t.parts != [] && !Exists(fs1, t) && t !in fs1.readOnly
      && IsFile(fs1, Parse(files[0].originalPath))
      && forall q :: q in AncestorsAndSelf(Parent(t).value) ==> IsDir(fs1, q)
    ensures var t := TargetOf(root, files[0].relativePath);
      EnableFilesAfterResolve(fs1, root, files, displaced)
      == Outcome(WithEntries(fs1, fs1.entries[t := fs1.entries[Parse(files[0].originalPath)]]), Ok(Unit))
  {
    InstallIntoExistingDirs(fs1, root, files[0]);
    assert files[1..] == [];
  }

  /**
   * In the same situation, with `b`'s original present and the target's
   * directories in place, the corrected enable leaves `b`'s bytes in the game
   * file and `a`'s copy parked beside it.
   */
  lemma CorrectedEnableInstallsIncoming(fs: FileSystem, gameRootPath: string, a: SkinMod, b: SkinMod, now: int)
    requires a.enabled && a.path != b.path
    requires |a.files| == 1 && |b.files| == 1 && a.files[0].relativePath == b.files[0].relativePath
    requires var t := TargetOf(Parse(gameRootPath), b.files[0].relativePath);
      var original := Parse(b.files[0].originalPath);
      && t.parts != []
      && IsFile(fs, t) && !Exists(fs, Disabled(t)) && t !in fs.readOnly && Disabled(t) !in fs.readOnly
      && IsFile(fs, original) && original != t && original != Disabled(t)
      && forall q :: q in AncestorsAndSelf(Parent(t).value) ==> IsDir(fs, q)
    ensures var t := TargetOf(Parse(gameRootPath), b.files[0].relativePath);
      var o := EnableFoundCorrected(fs, Parse(gameRootPath), [a, b], 1, now);
      && o.result.Ok?
      && o.result.value.installedMods[1].enabled
      && !o.result.value.installedMods[0].files[0].enabled
      && Exists(o.fs, t) && o.fs.entries[t] == fs.entries[Parse(b.files[0].originalPath)]
      && Exists(o.fs, Disabled(t)) && o.fs.entries[Disabled(t)] == fs.entries[t]
  {
    var root := Parse(gameRootPath);
    var rel := b.files[0].relativePath;
    var t := TargetOf(root, rel);
    var original := Parse(b.files[0].originalPath);
    JoinParsedWellFormed(gameRootPath, rel);
    SharedTargetConflict(a, b);
    SharedTargetResolved(fs, root, a, b);
    var conflicts := [(rel, a.path)];
    assert rel in Displaced(fs, root, conflicts) by { assert conflicts[0] in conflicts; }
    ParkTarget(fs, t, original);
    var fs1 := Rename(fs, t, Disabled(t)).value;
    CorrectedPlacesIncoming(fs1, root, b.files, Displaced(fs, root, conflicts));
    var fs2 := WithEntries(fs1, fs1.entries[t := fs1.entries[original]]);
    var mods' := [a.(files := [a.files[0].(enabled := false)]), b];
    EnableFoundCorrectedShape(fs, root, [a, b], 1, now, fs1, mods', fs2);
  }
}
