/**
 * The mod registry of modregistry.rs: the list of REFramework mods and the list of
 * skin mods, kept in one object whose methods update it in place, plus its loader
 * with the one-way migration from the two older file shapes.
 */
module Registry {
  import opened Base
  import opened Strings
  import opened Paths
  import opened Disk
  import opened Keyed
  import Manifest

  datatype ModType = REFrameworkPlugin | REFrameworkAutorun | SkinMod | NativesMod | Other

  datatype Mod = Mod(
    name: string,
    directoryName: string,       // identifier: unique within the mod list
    path: string,
    enabled: bool,
    author: Option<string>,
    version: Option<string>,
    description: Option<string>,
    source: Option<string>,
    installedTimestamp: int,
    installedDirectory: string,  // relative to the game root
    modType: ModType)

  datatype SkinMod = SkinMod(
    base: Mod,
    thumbnailPath: Option<string>,
    conflicts: seq<string>,
    files: seq<Manifest.ModFile>)

  /** What the frontend is shown of a mod. */
  datatype ModInfo = ModInfo(
    directoryName: string,
    name: Option<string>,
    version: Option<string>,
    author: Option<string>,
    description: Option<string>,
    enabled: bool)

  /** A mod record of the two older file shapes. */
  datatype LegacyModMetadata = LegacyModMetadata(
    parsedName: string,
    originalZipName: string,
    installedDirectory: string,
    source: string,
    version: Option<string>)

  datatype SkinMetadata = SkinMetadata(
    name: string,
    path: string,
    enabled: bool,
    thumbnailPath: Option<string>,
    author: Option<string>,
    version: Option<string>,
    description: Option<string>)

  /** The intermediate file shape: separate `mods` and `skins` lists. */
  datatype ModListContainer = ModListContainer(mods: seq<LegacyModMetadata>, skins: seq<SkinMetadata>)

  /** The current file shape: everything the registry object holds. */
  datatype RegistryDocument = RegistryDocument(
    mods: seq<Mod>, skinMods: seq<SkinMod>, lastUpdated: int, formatVersion: nat)

  /**
   * The registry file's text together with what each schema makes of it: JSON
   * decoding is not modelled, only which of the three shapes the text parses as.
   */
  datatype StoredText = StoredText(
    content: string,
    asRegistry: Option<RegistryDocument>,
    asContainer: Option<ModListContainer>,
    asModList: Option<seq<LegacyModMetadata>>)

  /** What reading the registry file gives: absent, unreadable, gone between the checks, or text. */
  datatype RegistryFile = Missing | Unreadable | Vanished | Present(text: StoredText)

  datatype RegistryError = ReadFailed | MigrationFailed | SaveFailed | ModNotFound(directoryName: string)

  /** A reconciliation warning: both directories present, or neither. */
  datatype Warning = BothPresent(modName: string) | NeitherPresent(modName: string)

  function DirOf(m: Mod): string { m.directoryName }

  function SkinDirOf(s: SkinMod): string { s.base.directoryName }

  // ---------------------------------------------------------------------------
  // Projection to the frontend view
  // ---------------------------------------------------------------------------

  /**
   * What the frontend is shown of a mod: its folder name, which identifies it,
   * its name (always present), the optional details and whether it is on.
   */
  function ToModInfo(m: Mod): (info: ModInfo)
    ensures info.directoryName == DirOf(m) && info.name == Some(m.name) && info.enabled == m.enabled
    ensures info.version == m.version && info.author == m.author && info.description == m.description
  {
    ModInfo(m.directoryName, Some(m.name), m.version, m.author, m.description, m.enabled)
  }

  /** A skin mod is shown exactly as its base mod would be. */
  function SkinToModInfo(sm: SkinMod): (info: ModInfo)
    ensures info == ToModInfo(sm.base)
  {
    ModInfo(sm.base.directoryName, Some(sm.base.name), sm.base.version, sm.base.author,
            sm.base.description, sm.base.enabled)
  }

  predicate IsReframework(m: Mod)
  {
    m.modType == REFrameworkPlugin || m.modType == REFrameworkAutorun
  }

  /** The positions of the Plugin and Autorun mods in `mods`, in increasing order. */
  function ReframeworkPositions(mods: seq<Mod>): (idx: seq<nat>)
    ensures forall i :: 0 <= i < |idx| ==> idx[i] < |mods| && IsReframework(mods[idx[i]])
    ensures forall i, j :: 0 <= i < j < |idx| ==> idx[i] < idx[j]
    ensures forall k :: 0 <= k < |mods| && IsReframework(mods[k]) ==> k in idx
    ensures (forall k :: 0 <= k < |mods| ==> IsReframework(mods[k])) ==> |idx| == |mods|
  {
    if mods == [] then []
    else
      var n := |mods|;
      var rest := ReframeworkPositions(mods[..n - 1]);
      assert forall k :: 0 <= k < n - 1 ==> mods[..n - 1][k] == mods[k];
      if IsReframework(mods[n - 1]) then rest + [n - 1] else rest
  }

  /** The views of the Plugin and Autorun mods, in list order. */
  function ReframeworkInfos(mods: seq<Mod>): (r: seq<ModInfo>)
    ensures |r| <= |mods|
  {
    if mods == [] then []
    else
      var n := |mods|;
      ReframeworkInfos(mods[..n - 1]) + if IsReframework(mods[n - 1]) then [ToModInfo(mods[n - 1])] else []
  }

  /**
   * The i-th view is that of the i-th Plugin or Autorun mod, so every such mod
   * appears once per occurrence, in list order, and nothing else appears.
   */
  lemma {:induction false} ReframeworkInfosPositions(mods: seq<Mod>)
    ensures |ReframeworkInfos(mods)| == |ReframeworkPositions(mods)|
    ensures forall i :: 0 <= i < |ReframeworkInfos(mods)| ==>
              ReframeworkInfos(mods)[i] == ToModInfo(mods[ReframeworkPositions(mods)[i]])
    ensures (forall k :: 0 <= k < |mods| ==> IsReframework(mods[k])) ==> |ReframeworkInfos(mods)| == |mods|
  {
    if mods != [] {
      var n := |mods|;
      var init := mods[..n - 1];
      ReframeworkInfosPositions(init);
      var rest, positions := ReframeworkInfos(init), ReframeworkPositions(init);
      InitViews(mods, rest, positions);
    }
  }

  /** The views of the mods before the last one are the views of those same mods in `mods`. */
  lemma InitViews(mods: seq<Mod>, rest: seq<ModInfo>, positions: seq<nat>)
    requires mods != []
    requires |rest| == |positions|
    requires forall i :: 0 <= i < |positions| ==> positions[i] < |mods| - 1
    requires forall i :: 0 <= i < |rest| ==> rest[i] == ToModInfo(mods[..|mods| - 1][positions[i]])
    ensures forall i :: 0 <= i < |rest| ==> rest[i] == ToModInfo(mods[positions[i]])
  {
  }

  /** Filtering distributes over concatenation: the view of `a + b` is the view of `a`, then of `b`. */
  lemma {:induction false} ReframeworkInfosAppend(a: seq<Mod>, b: seq<Mod>)
    ensures ReframeworkInfos(a + b) == ReframeworkInfos(a) + ReframeworkInfos(b)
  {
    if b == [] {
      assert a + b == a;
    } else {
      var n := |b|;
      ReframeworkInfosAppend(a, b[..n - 1]);
      assert (a + b)[..|a + b| - 1] == a + b[..n - 1];
    }
  }

  /** One mod's view is itself when it is a Plugin or Autorun mod, and nothing otherwise. */
  lemma ReframeworkInfosSingle(m: Mod)
    ensures ReframeworkInfos([m]) == if IsReframework(m) then [ToModInfo(m)] else []
  {
    assert [m][..0] == [];
  }

  // ---------------------------------------------------------------------------
  // Reconciliation with the filesystem
  // ---------------------------------------------------------------------------

  /** `game_root.join(installed_directory)`: where an enabled mod's directory lives. */
  function ModDir(root: Path, m: Mod): Path
  {
    Join(root, Parse(m.installedDirectory))
  }

  /** `game_root.join(installed_directory + ".disabled")`. */
  function DisabledModDir(root: Path, m: Mod): Path
  {
    Join(root, Parse(m.installedDirectory + ".disabled"))
  }

  /** A mod as the filesystem says it is: enabled exactly when its directory is there. */
  function Reconcile(fs: FileSystem, root: Path, m: Mod): (r: Mod)
    ensures r.enabled <==> IsDir(fs, ModDir(root, m))
    ensures r.(enabled := m.enabled) == m
  {
    m.(enabled := IsDir(fs, ModDir(root, m)))
  }

  /** Every mod of `mods` reconciled, in order. */
  function ReconcileAll(fs: FileSystem, root: Path, mods: seq<Mod>): (r: seq<Mod>)
    ensures |r| == |mods|
    ensures forall k :: 0 <= k < |mods| ==> r[k] == Reconcile(fs, root, mods[k])
  {
    if mods == [] then []
    else ReconcileAll(fs, root, mods[..|mods| - 1]) + [Reconcile(fs, root, mods[|mods| - 1])]
  }

  function WarningFor(fs: FileSystem, root: Path, m: Mod): Option<Warning>
  {
    var enabled := IsDir(fs, ModDir(root, m));
    var parked := Exists(fs, DisabledModDir(root, m));
    if enabled && parked then Some(BothPresent(m.name))
    else if !enabled && !parked then Some(NeitherPresent(m.name))
    else None
  }

  /** The warnings logged while reconciling `mods`, in list order. */
  function Warnings(fs: FileSystem, root: Path, mods: seq<Mod>): (r: seq<Warning>)
    ensures |r| <= |mods|
  {
    if mods == [] then []
    else
      var w := WarningFor(fs, root, mods[|mods| - 1]);
      Warnings(fs, root, mods[..|mods| - 1]) + (if w.Some? then [w.value] else [])
  }

  lemma WarningsStep(fs: FileSystem, root: Path, mods: seq<Mod>, i: nat)
    requires i < |mods|
    ensures var w := WarningFor(fs, root, mods[i]);
      Warnings(fs, root, mods[..i + 1]) == Warnings(fs, root, mods[..i]) + (if w.Some? then [w.value] else [])
  {
    assert mods[..i + 1][..i] == mods[..i];
  }

  /** One pass of the loop body: the entry's flag from the filesystem, and the warning it raises. */
  method ReconcileEntry(fs: FileSystem, root: Path, entry: Mod) returns (reconciled: Mod, warning: Option<Warning>)
    ensures reconciled == Reconcile(fs, root, entry)
    ensures warning == WarningFor(fs, root, entry)
  {
    var isEnabled := IsDir(fs, ModDir(root, entry));
    var parked := Exists(fs, DisabledModDir(root, entry));
    reconciled := entry.(enabled := isEnabled);
    if isEnabled && parked {
      warning := Some(BothPresent(entry.name));
    } else if !isEnabled && !parked {
      warning := Some(NeitherPresent(entry.name));
    } else {
      warning := None;
    }
  }

  /** The loop of `update_mod_enabled_status` over the mod list: each flag set in place, warnings collected. */
  method ReconcileMods(fs: FileSystem, root: Path, before: seq<Mod>) returns (updated: seq<Mod>, warnings: seq<Warning>)
    ensures updated == ReconcileAll(fs, root, before)
    ensures warnings == Warnings(fs, root, before)
  {
    updated := before;
    warnings := [];
    var i := 0;
    while i < |updated|
      invariant 0 <= i <= |updated| && |updated| == |before|
      invariant forall k :: 0 <= k < i ==> updated[k] == Reconcile(fs, root, before[k])
      invariant forall k :: i <= k < |updated| ==> updated[k] == before[k]
      invariant warnings == Warnings(fs, root, before[..i])
    {
      WarningsStep(fs, root, before, i);
      var reconciled, warning := ReconcileEntry(fs, root, updated[i]);
      updated := updated[i := reconciled];
      if warning.Some? {
        warnings := warnings + [warning.value];
      }
      i := i + 1;
    }
    assert before[..i] == before;
  }

  /**
   * Renaming one mod's directory to its `.disabled` sibling outside the app and
   * then reconciling: a mod whose directory now lies below the new name is on
   * exactly when its counterpart below the old name was a directory; any other
   * mod living at or below the old directory turns off; every mod living
   * elsewhere comes out as before.
   */
  lemma ReconcileAfterExternalDisable(fs: FileSystem, root: Path, mods: seq<Mod>, j: nat)
    requires j < |mods|
    requires RenameDir(fs, ModDir(root, mods[j]), DisabledModDir(root, mods[j])).Ok?
    ensures var from, to := ModDir(root, mods[j]), DisabledModDir(root, mods[j]);
      var fs' := RenameDir(fs, from, to).value;
      forall k :: 0 <= k < |mods| ==>
        var d := ModDir(root, mods[k]);
        if IsAncestorOrSelf(to, d) then
          Reconcile(fs', root, mods[k]).enabled == IsDir(fs, Rebase(d, to, from))
        else if IsAncestorOrSelf(from, d) then !Reconcile(fs', root, mods[k]).enabled
        else Reconcile(fs', root, mods[k]) == Reconcile(fs, root, mods[k])
    ensures !Reconcile(RenameDir(fs, ModDir(root, mods[j]), DisabledModDir(root, mods[j])).value, root, mods[j]).enabled
  {
  }

  /** A mod whose directory and `.disabled` sibling are both gone is reported as missing. */
  lemma DeletedModWarns(fs: FileSystem, root: Path, mods: seq<Mod>, j: nat)
    requires j < |mods|
    requires !Exists(fs, ModDir(root, mods[j])) && !Exists(fs, DisabledModDir(root, mods[j]))
    ensures !Reconcile(fs, root, mods[j]).enabled
    ensures NeitherPresent(mods[j].name) in Warnings(fs, root, mods)
  {
    WarningsCover(fs, root, mods, j);
  }

  lemma {:induction false} WarningsCover(fs: FileSystem, root: Path, mods: seq<Mod>, j: nat)
    requires j < |mods| && WarningFor(fs, root, mods[j]).Some?
    ensures WarningFor(fs, root, mods[j]).value in Warnings(fs, root, mods)
  {
    if j < |mods| - 1 {
      WarningsCover(fs, root, mods[..|mods| - 1], j);
    }
  }

  // ---------------------------------------------------------------------------
  // Legacy migration
  // ---------------------------------------------------------------------------

  /** A legacy mod's type, read off its install directory: autorun wins over plugins. */
  function InferModType(installedDirectory: string): (t: ModType)
    ensures t == REFrameworkAutorun <==> Contains(installedDirectory, "/autorun/")
    ensures t == REFrameworkPlugin <==>
              !Contains(installedDirectory, "/autorun/") && Contains(installedDirectory, "/plugins/")
    ensures t == Other <==>
              !Contains(installedDirectory, "/autorun/") && !Contains(installedDirectory, "/plugins/")
  {
    if Contains(installedDirectory, "/autorun/") then REFrameworkAutorun
    else if Contains(installedDirectory, "/plugins/") then REFrameworkPlugin
    else Other
  }

  /** A legacy mod record lifted to the current shape; it starts out enabled. */
  function LiftLegacyMod(l: LegacyModMetadata, now: int): (m: Mod)
    ensures m.enabled && m.directoryName == l.parsedName && m.name == l.parsedName
    ensures m.installedDirectory == l.installedDirectory && m.modType == InferModType(l.installedDirectory)
    ensures m.source == Some(l.source) && m.version == l.version && m.path == l.originalZipName
  {
    Mod(l.parsedName, l.parsedName, l.originalZipName, true, None, l.version, None,
        Some(l.source), now, l.installedDirectory, InferModType(l.installedDirectory))
  }

  /** A legacy skin record lifted: named after the last component of its path, no files yet. */
  function LiftLegacySkin(s: SkinMetadata, now: int): (sm: SkinMod)
    ensures sm.base.directoryName == (match FileName(Parse(s.path)) case Some(n) => n case None => s.name)
    ensures sm.files == [] && sm.conflicts == [] && sm.base.modType == ModType.SkinMod
    ensures sm.base.enabled == s.enabled && sm.base.installedDirectory == ""
  {
    var dirName := match FileName(Parse(s.path)) case Some(n) => n case None => s.name;
    SkinMod.SkinMod(
      Mod(s.name, dirName, s.path, s.enabled, s.author, s.version, s.description,
          Some("local"), now, "", ModType.SkinMod),
      s.thumbnailPath, [], [])
  }

  function LiftLegacyMods(ls: seq<LegacyModMetadata>, now: int): (ms: seq<Mod>)
    ensures |ms| == |ls|
    ensures forall i :: 0 <= i < |ls| ==> ms[i] == LiftLegacyMod(ls[i], now)
  {
    seq(|ls|, i requires 0 <= i < |ls| => LiftLegacyMod(ls[i], now))
  }

  function LiftLegacySkins(ss: seq<SkinMetadata>, now: int): (sms: seq<SkinMod>)
    ensures |sms| == |ss|
    ensures forall i :: 0 <= i < |ss| ==> sms[i] == LiftLegacySkin(ss[i], now)
  {
    seq(|ss|, i requires 0 <= i < |ss| => LiftLegacySkin(ss[i], now))
  }

  lemma LiftLegacyModsStep(ls: seq<LegacyModMetadata>, i: nat, now: int)
    requires i < |ls|
    ensures LiftLegacyMods(ls[..i + 1], now) == LiftLegacyMods(ls[..i], now) + [LiftLegacyMod(ls[i], now)]
  {
    var a, b := LiftLegacyMods(ls[..i + 1], now), LiftLegacyMods(ls[..i], now) + [LiftLegacyMod(ls[i], now)];
    assert |a| == |b|;
    forall k | 0 <= k < |a|
      ensures a[k] == b[k]
    {
      if k < i {
        assert ls[..i + 1][k] == ls[..i][k];
      }
    }
  }

  lemma LiftLegacySkinsStep(ss: seq<SkinMetadata>, j: nat, now: int)
    requires j < |ss|
    ensures LiftLegacySkins(ss[..j + 1], now) == LiftLegacySkins(ss[..j], now) + [LiftLegacySkin(ss[j], now)]
  {
    var a, b := LiftLegacySkins(ss[..j + 1], now), LiftLegacySkins(ss[..j], now) + [LiftLegacySkin(ss[j], now)];
    assert |a| == |b|;
    forall k | 0 <= k < |a|
      ensures a[k] == b[k]
    {
      if k < j {
        assert ss[..j + 1][k] == ss[..j][k];
      }
    }
  }

  /** The document the migration produces: the container shape first, then the flat list. */
  function Migrated(text: StoredText, now: int): Result<RegistryDocument, RegistryError>
  {
    match text.asContainer
    case Some(c) => Ok(RegistryDocument(LiftLegacyMods(c.mods, now), LiftLegacySkins(c.skins, now), now, 1))
    case None =>
      match text.asModList
      case Some(ls) => Ok(RegistryDocument(LiftLegacyMods(ls, now), [], now, 1))
      case None => Err(MigrationFailed)
  }

  /**
   * Migration keeps every legacy mod, one for one and in order, and turns each on;
   * skins come only from the container shape; with neither shape it fails.
   */
  lemma MigrationKeepsEveryMod(text: StoredText, now: int)
    ensures Migrated(text, now).Err? <==> text.asContainer.None? && text.asModList.None?
    ensures text.asContainer.Some? ==>
              var d := Migrated(text, now).value;
              |d.mods| == |text.asContainer.value.mods| && |d.skinMods| == |text.asContainer.value.skins|
    ensures text.asContainer.None? && text.asModList.Some? ==>
              var d := Migrated(text, now).value;
              |d.mods| == |text.asModList.value| && d.skinMods == []
    ensures Migrated(text, now).Ok? ==>
              var d := Migrated(text, now).value;
              d.formatVersion == 1 && d.lastUpdated == now
              && (forall i :: 0 <= i < |d.mods| ==> d.mods[i].enabled)
              && (forall i :: 0 <= i < |d.skinMods| ==> d.skinMods[i].files == [] && d.skinMods[i].conflicts == [])
  {
  }

  /** The fresh registry `ModRegistry::new` builds. */
  function EmptyDocument(now: int): RegistryDocument
  {
    RegistryDocument([], [], now, 1)
  }

  /**
   * What `load` yields: a fresh registry for a missing or empty file, the stored
   * registry when the text parses as such, otherwise the migration, which must
   * also be saved.
   */
  function Loaded(file: RegistryFile, now: int, saveSucceeds: bool): Result<RegistryDocument, RegistryError>
  {
    match file
    case Missing => Ok(EmptyDocument(now))
    case Vanished => Ok(EmptyDocument(now))
    case Unreadable => Err(ReadFailed)
    case Present(text) =>
      if text.content == "" then Ok(EmptyDocument(now))
      else if text.asRegistry.Some? then Ok(text.asRegistry.value)
      else match Migrated(text, now)
        case Err(e) => Err(e)
        case Ok(d) => if saveSucceeds then Ok(d) else Err(SaveFailed)
  }

  /** Loading what was saved gives it back; an absent or empty file is not an error. */
  lemma LoadSavedDocument(d: RegistryDocument, content: string, now: int, saveSucceeds: bool, other: StoredText)
    requires content != ""
    ensures Loaded(Present(StoredText(content, Some(d), other.asContainer, other.asModList)), now, saveSucceeds) == Ok(d)
    ensures Loaded(Missing, now, saveSucceeds).Ok? && Loaded(Missing, now, saveSucceeds).value.mods == []
    ensures Loaded(Present(other.(content := "")), now, saveSucceeds) == Ok(EmptyDocument(now))
  {
  }

  // ---------------------------------------------------------------------------
  // Facts about the list updates used by the registry object
  // ---------------------------------------------------------------------------

  /**
   * After `add_mod(m)` exactly one mod carries `m`'s directory name: `m` itself,
   * placed last; every other mod is kept, in its original order.
   */
  lemma AddReplacesByDirectory(mods: seq<Mod>, m: Mod)
    ensures var r := Without(mods, DirOf, m.directoryName) + [m];
      && r[|r| - 1] == m
      && (forall i :: 0 <= i < |r| && r[i].directoryName == m.directoryName ==> i == |r| - 1)
      && (forall i :: 0 <= i < |mods| && mods[i].directoryName != m.directoryName ==> mods[i] in r)
      && (forall a, b :: mods == a + b ==>
            r == Without(a, DirOf, m.directoryName) + Without(b, DirOf, m.directoryName) + [m])
  {
    forall a, b | mods == a + b
      ensures Without(mods, DirOf, m.directoryName)
           == Without(a, DirOf, m.directoryName) + Without(b, DirOf, m.directoryName)
    {
      WithoutAppend(a, b, DirOf, m.directoryName);
    }
  }

  class ModRegistry {
    var mods: seq<Mod>
    var skinMods: seq<SkinMod>
    var lastUpdated: int
    var formatVersion: nat

    /** `ModRegistry::new`. */
    constructor (now: int)
      ensures Document() == EmptyDocument(now)
    {
      mods, skinMods, lastUpdated, formatVersion := [], [], now, 1;
    }

    constructor FromDocument(d: RegistryDocument)
      ensures Document() == d
    {
      mods, skinMods, lastUpdated, formatVersion := d.mods, d.skinMods, d.lastUpdated, d.formatVersion;
    }

    /** The registry as it is written to disk. */
    function Document(): RegistryDocument
      reads this
    {
      RegistryDocument(mods, skinMods, lastUpdated, formatVersion)
    }

    /** `load`, from the file's contents; a migration succeeds only if its save does. */
    static method Load(file: RegistryFile, now: int, saveSucceeds: bool) returns (r: Result<ModRegistry, RegistryError>)
      ensures r.Ok? <==> Loaded(file, now, saveSucceeds).Ok?
      ensures r.Ok? ==> fresh(r.value) && r.value.Document() == Loaded(file, now, saveSucceeds).value
      ensures r.Err? ==> r.error == Loaded(file, now, saveSucceeds).error
    {
      if file.Unreadable? {
        return Err(ReadFailed);
      }
      if file.Missing? || file.Vanished? || file.text.content == "" {
        var registry := new ModRegistry(now);
        return Ok(registry);
      }
      var text := file.text;
      if text.asRegistry.Some? {
        var registry := new ModRegistry.FromDocument(text.asRegistry.value);
        return Ok(registry);
      }
      r := MigrateFromLegacy(text, now, saveSucceeds);
    }

    /** `migrate_from_legacy`: lift each old record into a fresh registry, then save it. */
    static method MigrateFromLegacy(text: StoredText, now: int, saveSucceeds: bool)
      returns (r: Result<ModRegistry, RegistryError>)
      ensures r.Ok? <==> Migrated(text, now).Ok? && saveSucceeds
      ensures r.Ok? ==> fresh(r.value) && r.value.Document() == Migrated(text, now).value
      ensures r.Err? ==> r.error == if Migrated(text, now).Err? then MigrationFailed else SaveFailed
    {
      var registry := new ModRegistry(now);
      if text.asContainer.Some? {
        var container := text.asContainer.value;
        var i := 0;
        while i < |container.mods|
          invariant 0 <= i <= |container.mods|
          invariant registry.mods == LiftLegacyMods(container.mods[..i], now)
          invariant registry.skinMods == [] && registry.formatVersion == 1
        {
          LiftLegacyModsStep(container.mods, i, now);
          registry.mods := registry.mods + [LiftLegacyMod(container.mods[i], now)];
          i := i + 1;
        }
        assert container.mods[..i] == container.mods;
        var j := 0;
        while j < |container.skins|
          invariant 0 <= j <= |container.skins|
          invariant registry.mods == LiftLegacyMods(container.mods, now)
          invariant registry.skinMods == LiftLegacySkins(container.skins[..j], now)
          invariant registry.formatVersion == 1
        {
          LiftLegacySkinsStep(container.skins, j, now);
          registry.skinMods := registry.skinMods + [LiftLegacySkin(container.skins[j], now)];
          j := j + 1;
        }
        assert container.skins[..j] == container.skins;
      } else if text.asModList.Some? {
        var modList := text.asModList.value;
        var i := 0;
        while i < |modList|
          invariant 0 <= i <= |modList|
          invariant registry.mods == LiftLegacyMods(modList[..i], now)
          invariant registry.skinMods == [] && registry.formatVersion == 1
        {
          LiftLegacyModsStep(modList, i, now);
          registry.mods := registry.mods + [LiftLegacyMod(modList[i], now)];
          i := i + 1;
        }
        assert modList[..i] == modList;
      } else {
        return Err(MigrationFailed);
      }
      registry.lastUpdated := now;
      if !saveSucceeds {
        return Err(SaveFailed);
      }
      return Ok(registry);
    }

    /** `get_all_mod_info`: regular mods first, then skin mods, each in list order. */
    method GetAllModInfo() returns (result: seq<ModInfo>)
      ensures |result| == |mods| + |skinMods|
      ensures forall i :: 0 <= i < |mods| ==> result[i] == ToModInfo(mods[i])
      ensures forall j :: 0 <= j < |skinMods| ==> result[|mods| + j] == ToModInfo(skinMods[j].base)
    {
      result := [];
      var i := 0;
      while i < |mods|
        invariant 0 <= i <= |mods|
        invariant |result| == i
        invariant forall k :: 0 <= k < i ==> result[k] == ToModInfo(mods[k])
      {
        result := result + [ToModInfo(mods[i])];
        i := i + 1;
      }
      var j := 0;
      while j < |skinMods|
        invariant 0 <= j <= |skinMods|
        invariant |result| == |mods| + j
        invariant forall k :: 0 <= k < |mods| ==> result[k] == ToModInfo(mods[k])
        invariant forall k :: 0 <= k < j ==> result[|mods| + k] == ToModInfo(skinMods[k].base)
      {
        result := result + [SkinToModInfo(skinMods[j])];
        j := j + 1;
      }
    }

    /** `get_reframework_mod_info`: the views of the Plugin and Autorun mods, one each, in list order. */
    function GetReframeworkModInfo(): (r: seq<ModInfo>)
      reads this
      ensures |r| == |ReframeworkPositions(mods)|
      ensures forall i :: 0 <= i < |r| ==> r[i] == ToModInfo(mods[ReframeworkPositions(mods)[i]])
    {
      ReframeworkInfosPositions(mods);
      ReframeworkInfos(mods)
    }

    /** `get_skin_mod_info`: one view per skin mod, in list order. */
    function GetSkinModInfo(): (r: seq<ModInfo>)
      reads this
      ensures |r| == |skinMods|
      ensures forall i :: 0 <= i < |r| ==> r[i] == ToModInfo(skinMods[i].base)
    {
      seq(|skinMods|, i requires 0 <= i < |skinMods| reads this => SkinToModInfo(skinMods[i]))
    }

    /** `find_mod`: the first mod with the directory name. */
    function FindMod(directoryName: string): (r: Option<Mod>)
      reads this
      ensures r.None? <==> !HasKey(mods, DirOf, directoryName)
      ensures r.Some? ==>
                (exists i :: 0 <= i < |mods| && mods[i] == r.value && r.value.directoryName == directoryName
                  && forall j :: 0 <= j < i ==> mods[j].directoryName != directoryName)
    {
      match Position(mods, DirOf, directoryName)
      case None => None
      case Some(i) => Some(mods[i])
    }

    /** `find_skin_mod`: the first skin mod with the directory name. */
    function FindSkinMod(directoryName: string): (r: Option<SkinMod>)
      reads this
      ensures r.None? <==> !HasKey(skinMods, SkinDirOf, directoryName)
      ensures r.Some? ==>
                (exists i :: 0 <= i < |skinMods| && skinMods[i] == r.value
                  && r.value.base.directoryName == directoryName
                  && forall j :: 0 <= j < i ==> skinMods[j].base.directoryName != directoryName)
    {
      match Position(skinMods, SkinDirOf, directoryName)
      case None => None
      case Some(i) => Some(skinMods[i])
    }

    /**
     * `update_mod_enabled_status`: every regular mod's flag is set from whether its
     * directory exists; the `.disabled` sibling only produces warnings; skin mods
     * are left alone.
     */
    method UpdateModEnabledStatus(fs: FileSystem, root: Path, now: int) returns (warnings: seq<Warning>)
      modifies this
      ensures mods == ReconcileAll(fs, root, old(mods))
      ensures warnings == Warnings(fs, root, old(mods))
      ensures skinMods == old(skinMods) && formatVersion == old(formatVersion) && lastUpdated == now
    {
      var updated;
      updated, warnings := ReconcileMods(fs, root, mods);
      mods := updated;
      lastUpdated := now;
    }

    /** `add_mod`: any mod with the same directory name is dropped, then `m` is appended. */
    method AddMod(m: Mod, now: int)
      modifies this
      ensures mods == Without(old(mods), DirOf, m.directoryName) + [m]
      ensures skinMods == old(skinMods) && formatVersion == old(formatVersion) && lastUpdated == now
    {
      mods := Without(mods, DirOf, m.directoryName);
      mods := mods + [m];
      lastUpdated := now;
    }

    /** `add_skin_mod`: the same replace-then-append, on the skin list. */
    method AddSkinMod(s: SkinMod, now: int)
      modifies this
      ensures skinMods == Without(old(skinMods), SkinDirOf, s.base.directoryName) + [s]
      ensures mods == old(mods) && formatVersion == old(formatVersion) && lastUpdated == now
    {
      skinMods := Without(skinMods, SkinDirOf, s.base.directoryName);
      skinMods := skinMods + [s];
      lastUpdated := now;
    }

    /** `remove_mod`: reports whether a mod was dropped; the clock moves only then. */
    method RemoveMod(directoryName: string, now: int) returns (removed: bool)
      modifies this
      ensures removed <==> HasKey(old(mods), DirOf, directoryName)
      ensures mods == Without(old(mods), DirOf, directoryName)
      ensures !removed ==> mods == old(mods)
      ensures lastUpdated == if removed then now else old(lastUpdated)
      ensures skinMods == old(skinMods) && formatVersion == old(formatVersion)
    {
      var initialCount := |mods|;
      WithoutShrinks(mods, DirOf, directoryName);
      mods := Without(mods, DirOf, directoryName);
      removed := |mods| != initialCount;
      if removed {
        lastUpdated := now;
      }
    }

    /** `remove_skin_mod`. */
    method RemoveSkinMod(directoryName: string, now: int) returns (removed: bool)
      modifies this
      ensures removed <==> HasKey(old(skinMods), SkinDirOf, directoryName)
      ensures skinMods == Without(old(skinMods), SkinDirOf, directoryName)
      ensures !removed ==> skinMods == old(skinMods)
      ensures lastUpdated == if removed then now else old(lastUpdated)
      ensures mods == old(mods) && formatVersion == old(formatVersion)
    {
      var initialCount := |skinMods|;
      WithoutShrinks(skinMods, SkinDirOf, directoryName);
      skinMods := Without(skinMods, SkinDirOf, directoryName);
      removed := |skinMods| != initialCount;
      if removed {
        lastUpdated := now;
      }
    }

    /**
     * `toggle_mod_enabled`: only the flag of the first mod with the directory name
     * changes; an unknown name is an error and changes nothing.
     */
    method ToggleModEnabled(directoryName: string, enable: bool, now: int) returns (r: Result<Unit, RegistryError>)
      modifies this
      ensures r.Err? <==> !HasKey(old(mods), DirOf, directoryName)
      ensures r.Err? ==> r.error == ModNotFound(directoryName) && mods == old(mods) && lastUpdated == old(lastUpdated)
      ensures r.Ok? ==> var i := Position(old(mods), DirOf, directoryName).value;
                        mods == old(mods)[i := old(mods)[i].(enabled := enable)] && lastUpdated == now
      ensures skinMods == old(skinMods) && formatVersion == old(formatVersion)
    {
      match Position(mods, DirOf, directoryName) {
        case None =>
          return Err(ModNotFound(directoryName));
        case Some(i) =>
          mods := mods[i := mods[i].(enabled := enable)];
          lastUpdated := now;
          return Ok(Unit);
      }
    }

    /** `toggle_skin_mod_enabled`. */
    method ToggleSkinModEnabled(directoryName: string, enable: bool, now: int) returns (r: Result<Unit, RegistryError>)
      modifies this
      ensures r.Err? <==> !HasKey(old(skinMods), SkinDirOf, directoryName)
      ensures r.Err? ==> r.error == ModNotFound(directoryName) && skinMods == old(skinMods)
                         && lastUpdated == old(lastUpdated)
      ensures r.Ok? ==> var i := Position(old(skinMods), SkinDirOf, directoryName).value;
                        skinMods == old(skinMods)[i := old(skinMods)[i].(base := old(skinMods)[i].base.(enabled := enable))]
                        && lastUpdated == now
      ensures mods == old(mods) && formatVersion == old(formatVersion)
    {
      match Position(skinMods, SkinDirOf, directoryName) {
        case None =>
          return Err(ModNotFound(directoryName));
        case Some(i) =>
          skinMods := skinMods[i := skinMods[i].(base := skinMods[i].base.(enabled := enable))];
          lastUpdated := now;
          return Ok(Unit);
      }
    }
  }
}
