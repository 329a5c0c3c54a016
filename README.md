# fossmodmanager-MHW: the mod registries and their game-directory commands

fossmodmanager is a desktop mod manager for Monster Hunter Wilds. Its Rust
backend keeps two kinds of record and changes the game directory on the user's
behalf:

- **The mod registry** (`modregistry.rs`). This is an object with two lists.
  One holds the REFramework mods and the other the skin mods. Methods update
  it in place. Loading it migrates the two older file shapes.
- **The skin registries**:
  - `skinextract.rs` keeps a conflict-aware registry. It records per file
    which mod ships which target path. Enabling a mod first parks the copies of
    every other enabled mod that claims the same target.
  - `skinmanager.rs` keeps an install-tracking registry. Enabling a mod copies
    its pak and `natives` files into the game root and records every
    destination. Disabling removes exactly those destinations.
- **The user configuration** (`config.rs`). It finds the game root from the
  executable by walking up to `steamapps/common/<game>`. It also loads, saves
  and deletes `userconfig.json`, and moves a corrupt file aside.
- **The write guard** (`tempermission.rs`). It checks that a requested game
  root is the configured one. It then reports the operation on the frontend's
  event channel: `Started`, the action's progress, and one `Finished`.

## How the model is laid out

- **Disk.** The disk is a value, `Disk.FileSystem`: a map from paths to files
  (with their bytes) and directories, plus a set of paths that cannot be
  written. Each file-system call the source makes is a function that returns
  either the new disk or an error.
- **Paths.** A path is `Paths.Path`: an absolute flag and a sequence of
  components. `Render` and `Parse` convert paths to strings and back, and the
  round trip is proved for well-formed paths.
- **Inputs.** Directory walks, `read_dir` listings, file sizes and clock
  readings are parameters of the commands.
- **Registry files.** A registry file is given as its text together with what
  JSON decoding makes of it.
- **The mod registry object** is the class `Registry.ModRegistry`. Its fields
  are the source's fields and its methods have `modifies this`.
- **The skin commands** load a registry value, work on the disk and return
  the disk together with the saved registry or the error. Each one is a
  method proved equal to a specification function. The properties are lemmas
  about those functions.
- **The event channel** is the class `TempPermission.Channel`.
- **Shared declarations.**
  - `modregistry.rs` and `skinextract.rs` declare identical `ModFile` records,
    which are declared once in `Manifest`.
  - The same two files carry the same `extract_mod_name_from_folder`, which is
    declared once in `FolderNames`.

## Model

| member | source | states |
|---|---|---|
| Registry.ToModInfo | src-tauri/src/utils/modregistry.rs:323-332 | The frontend view of a mod carries its folder name, its name wrapped as present, its version, author and description, and its enabled flag, each as the mod has it. |
| Registry.SkinToModInfo | src-tauri/src/utils/modregistry.rs:335-344 | A skin mod is shown to the frontend exactly as its base mod would be. |
| Registry.ReframeworkPositions | src-tauri/src/utils/modregistry.rs:366 | The positions kept by the filter are in range, strictly increasing, each of a Plugin or Autorun mod, and include every such mod; a list of only such mods keeps every position. |
| Registry.ReframeworkInfosPositions | src-tauri/src/utils/modregistry.rs:364-369 | The i-th entry of the REFramework view is the view of the i-th Plugin or Autorun mod, so each such mod appears once per occurrence, in list order, and nothing else appears. |
| Registry.ReframeworkInfosAppend | src-tauri/src/utils/modregistry.rs:365-368 | The view of two lists joined is the view of the first followed by the view of the second. |
| Registry.ReframeworkInfosSingle | src-tauri/src/utils/modregistry.rs:366-367 | A single mod's view is its own view when it is a Plugin or Autorun mod, and empty otherwise. |
| Registry.Reconcile | src-tauri/src/utils/modregistry.rs:402-418 | A reconciled mod is enabled exactly when its installed directory is a directory under the game root; no other field changes. |
| Registry.ReconcileAll | src-tauri/src/utils/modregistry.rs:399-426 | Reconciling the list reconciles each mod in place, keeping length and order. |
| Registry.ReconcileEntry | src-tauri/src/utils/modregistry.rs:401-419 | One pass of the loop: the flag from the file system, plus a warning when both the directory and its `.disabled` sibling exist, or neither does. |
| Registry.ReconcileMods | src-tauri/src/utils/modregistry.rs:399-426 | The loop sets every flag as `ReconcileAll` says and collects the warnings in list order. |
| Registry.ReconcileAfterExternalDisable | src-tauri/src/utils/modregistry.rs:399-426 | Renaming a mod's directory, with everything below it, to its `.disabled` sibling outside the app and then reconciling turns that mod off. A mod now below the new name is on exactly when its counterpart below the old name was a directory. Any other mod at or below the old directory turns off, and every mod elsewhere comes out as before. |
| Registry.DeletedModWarns | src-tauri/src/utils/modregistry.rs:407-418 | A mod whose directory and `.disabled` sibling are both gone is turned off and a "neither present" warning names it. |
| Registry.WarningsCover | src-tauri/src/utils/modregistry.rs:409-416 | Every mod that raises a warning has that warning among those collected. |
| Registry.InferModType | src-tauri/src/utils/modregistry.rs:235-241 | The type is Autorun exactly when the directory contains `/autorun/`; otherwise it is Plugin exactly when it contains `/plugins/`; otherwise it is Other. |
| Registry.LiftLegacyMod | src-tauri/src/utils/modregistry.rs:223-244 | A legacy record becomes an enabled mod named and keyed by its parsed name, keeping its directory, zip name, source and version, and typed from its directory. |
| Registry.LiftLegacySkin | src-tauri/src/utils/modregistry.rs:247-274 | A legacy skin is keyed by the last component of its path (its name when there is none). It keeps its flag, has no files or conflicts and is typed as a skin mod. |
| Registry.LiftLegacyMods | src-tauri/src/utils/modregistry.rs:223-244 | The lifted list has one mod per legacy record, in order. |
| Registry.LiftLegacySkins | src-tauri/src/utils/modregistry.rs:247-274 | The lifted skin list has one skin per legacy skin, in order. |
| Registry.MigrationKeepsEveryMod | src-tauri/src/utils/modregistry.rs:210-320 | Migration fails exactly when the text is neither legacy shape. The container shape is tried first and keeps every mod and skin, one for one. The flat list keeps every mod and yields no skins. Every migrated mod is on, and the result is stamped and at format version 1. |
| Registry.LoadSavedDocument | src-tauri/src/utils/modregistry.rs:151-191 | Loading text that parses as a registry gives that registry back. A missing or empty file gives a fresh, empty registry. |
| Registry.AddReplacesByDirectory | src-tauri/src/utils/modregistry.rs:429-435 | After adding, the new mod is last and is the only one with its directory name. Every other mod is kept in its order, and dropping distributes over any split of the list. |
| Registry.ModRegistry.constructor | src-tauri/src/utils/modregistry.rs:127-134 | A new registry has no mods, no skin mods, the current time and format version 1. |
| Registry.ModRegistry.FromDocument | src-tauri/src/utils/modregistry.rs:151-191 | A registry built from a decoded document holds exactly that document. |
| Registry.ModRegistry.Load | src-tauri/src/utils/modregistry.rs:151-191 | Load fails exactly when the file is unreadable, when neither legacy shape parses, or when saving the migration fails. Otherwise the new registry holds what the file, or its migration, says. |
| Registry.ModRegistry.MigrateFromLegacy | src-tauri/src/utils/modregistry.rs:210-320 | It succeeds exactly when a legacy shape parses and the save succeeds, and the new registry is the migrated document. It fails with a migration error when neither shape parses, and otherwise with a save error. |
| Registry.ModRegistry.GetAllModInfo | src-tauri/src/utils/modregistry.rs:347-361 | It returns the regular mods' views, in order, followed by the skin mods' views, in order. |
| Registry.ModRegistry.GetReframeworkModInfo | src-tauri/src/utils/modregistry.rs:364-369 | It returns one view per Plugin or Autorun mod, the i-th being that of the i-th such mod, in list order. |
| Registry.ModRegistry.GetSkinModInfo | src-tauri/src/utils/modregistry.rs:372-376 | It returns one view per skin mod, in list order. |
| Registry.ModRegistry.FindMod | src-tauri/src/utils/modregistry.rs:379-381 | It finds nothing exactly when no mod has the name; otherwise it returns the first mod with it. |
| Registry.ModRegistry.FindSkinMod | src-tauri/src/utils/modregistry.rs:389-391 | It finds nothing exactly when no skin mod has the name; otherwise it returns the first skin mod with it. |
| Registry.ModRegistry.UpdateModEnabledStatus | src-tauri/src/utils/modregistry.rs:399-426 | Every regular mod's flag comes from the file system and the warnings are those of the list. Skin mods and the format version are unchanged, and the time is stamped. |
| Registry.ModRegistry.AddMod | src-tauri/src/utils/modregistry.rs:429-435 | Every mod with the new mod's directory name is dropped and the new mod is appended. Skin mods are unchanged and the time is stamped. |
| Registry.ModRegistry.AddSkinMod | src-tauri/src/utils/modregistry.rs:438-444 | The same replace-then-append on the skin list; regular mods are unchanged. |
| Registry.ModRegistry.RemoveMod | src-tauri/src/utils/modregistry.rs:447-457 | It reports removal exactly when some mod had the name, and drops every such mod. The time is stamped only when something was removed; otherwise nothing changes. |
| Registry.ModRegistry.RemoveSkinMod | src-tauri/src/utils/modregistry.rs:460-470 | The same, on the skin list. |
| Registry.ModRegistry.ToggleModEnabled | src-tauri/src/utils/modregistry.rs:473-482 | An unknown name is a not-found error and changes nothing. Otherwise only the flag of the first mod with the name is set, and the time is stamped. |
| Registry.ModRegistry.ToggleSkinModEnabled | src-tauri/src/utils/modregistry.rs:485-494 | The same, on the skin list. |
| FolderNames.ExtractModNameFromFolder | src-tauri/src/utils/skinextract.rs:371-399 | The derived name is a prefix of the folder name, or "Custom Skin" for a pak-like name. |
| FolderNames.ExtractModNameSimple | src-tauri/src/utils/skinmanager.rs:409-423 | The name is a prefix of the folder name, empty only for an empty folder name. When it is shorter, it contains no delimiter and stops at one. |
| FolderNames.ExtractCutsAtFirstDelimiter | src-tauri/src/utils/modregistry.rs:500-528 | A delimiter after a first character that is not a delimiter cuts the name there, leaving a non-empty name with no delimiter in it. |
| FolderNames.ExtractWithoutDelimiter | src-tauri/src/utils/skinextract.rs:371-399 | A name with no delimiter is kept unless it mentions `chunk`. Then the text before `chunk` is the name, or "Custom Skin" when `chunk` leads. |
| FolderNames.ExtractUncut | src-tauri/src/utils/skinextract.rs:371-399 | A name that is empty, starts with a delimiter or has none is kept when it does not look like a pak. Otherwise it is the text before `chunk`, with trailing `_` and then `-` trimmed, when `chunk` is present and not at the start, and "Custom Skin" when it is not. So `_mod_chunk_000` gives `_mod`, `_chunk_000` gives the empty name and `-x.pak` gives "Custom Skin". |
| FolderNames.ExtractEmptyOnlyForLeadingDelimiter | src-tauri/src/utils/skinextract.rs:371-399 | The derived name is empty only for an empty folder name, or for a pak-like name that starts with a delimiter. |
| FolderNames.SimpleAgreesUnlessPak | src-tauri/src/utils/skinmanager.rs:409-423 | skinmanager.rs's shorter variant gives the same name for every name that does not look like a pak, and for every name with a delimiter after a first character that is not one. |
| SkinScan.Entry | src-tauri/src/utils/skinextract.rs:498-506 | A line yields a key and value exactly when it is not blank or a comment and contains `=`. |
| SkinScan.LastValue | src-tauri/src/utils/skinextract.rs:508-516 | The value picked for a key is never empty. |
| SkinScan.ParseModInfo | src-tauri/src/utils/skinextract.rs:494-520 | Every field that reading the lines sets holds a non-empty value, and no lines give an empty record. |
| SkinScan.ParseModInfoFieldwise | src-tauri/src/utils/skinextract.rs:498-520 | Each field of the record is the last non-empty value any line gives its key; fields do not interfere. |
| SkinScan.ParseModInfoSnoc | src-tauri/src/utils/skinextract.rs:498-518 | Reading one more line applies that line to the record read so far. |
| SkinScan.IgnoredLineKeeps | src-tauri/src/utils/skinextract.rs:499-504 | A blank line, a comment or a line without `=` leaves the record unchanged. |
| SkinScan.IgnoredLineAnywhere | src-tauri/src/utils/skinextract.rs:498-518 | Such a line can be dropped from anywhere in the file without changing the record. |
| SkinScan.ParseModinfoFile | src-tauri/src/utils/skinextract.rs:488-521 | It gives nothing exactly when the path is not a file; otherwise it gives the record the file's lines build. |
| SkinScan.NativesRelativePath | src-tauri/src/utils/skinextract.rs:581-590 | A natives file's target is `natives/` followed by its path relative to the `natives` directory. |
| SkinScan.PakEntriesSound | src-tauri/src/utils/skinextract.rs:528-559 | Every pak record comes from a pak file of the walk, is named by its bare file name and starts switched off. |
| SkinScan.PakEntriesComplete | src-tauri/src/utils/skinextract.rs:528-559 | Every pak file of the walk whose size is known gets a record. |
| SkinScan.NativesEntriesOfSound | src-tauri/src/utils/skinextract.rs:562-601 | Every natives record comes from a file strictly below the `natives` directory and is named by its relative path under `natives/`. |
| SkinScan.NativesEntriesOfComplete | src-tauri/src/utils/skinextract.rs:562-601 | Every file strictly below a `natives` directory whose size is known gets a record. |
| SkinScan.NativesEntriesSound | src-tauri/src/utils/skinextract.rs:562-601 | Every natives record comes from some `natives` directory of the walk. |
| SkinScan.IndexedFilesStartOff | src-tauri/src/utils/skinextract.rs:524-604 | Every indexed record starts switched off and is a pak or a natives file. |
| SkinScan.IndexedPakTarget | src-tauri/src/utils/skinextract.rs:538-543 | A pak record's target is the game root joined with the pak's file name. |
| SkinScan.IndexedNativesTarget | src-tauri/src/utils/skinextract.rs:581-590 | A natives record's target is the game's `natives` joined with the file's path below the mod's `natives`. |
| SkinScan.IndexPakFiles | src-tauri/src/utils/skinextract.rs:528-559 | The pak walk builds exactly the pak records. |
| SkinScan.IndexNativesDir | src-tauri/src/utils/skinextract.rs:571-599 | The walk of one `natives` directory builds exactly that directory's records. |
| SkinScan.IndexNativesDirs | src-tauri/src/utils/skinextract.rs:562-601 | The walk over every `natives` directory builds exactly the natives records, directory by directory. |
| SkinScan.IndexModFiles | src-tauri/src/utils/skinextract.rs:524-604 | `index_mod_files` yields the pak records, then the natives records. |
| SkinScan.ScannedModsSound | src-tauri/src/utils/skinextract.rs:146-227 | Every scanned entry comes from a folder of the walk other than the mods directory. It is the registry's entry for that folder's path or, when the registry lacks it, a new entry for the folder, which qualifies. |
| SkinScan.ScannedModsComplete | src-tauri/src/utils/skinextract.rs:146-227 | Every folder of the walk that the registry holds, or that has a pak or a `natives` directory, is scanned. |
| SkinScan.ScanMerge | src-tauri/src/utils/skinextract.rs:116-236 | Every saved entry belongs to a walked folder, and is either the registry's old entry for that folder, unchanged, or a new entry for a qualifying folder it lacked. No qualifying folder is missed, and old entries whose folder is no longer walked are dropped. |
| SkinScan.NewSkinModStartsOff | src-tauri/src/utils/skinextract.rs:199-225 | A new entry is off and stamped with the scan time. It is named from `modinfo.ini`, or else from its folder name, and every file record is off. |
| SkinScan.ScanOutcomeCases | src-tauri/src/utils/skinextract.rs:116-236 | An invalid root is an error. A missing mods directory finds nothing and saves nothing. Otherwise the scan fails exactly when the registry cannot be loaded, and on success it saves the scanned list with the scan time. |
| SkinScan.CheckPayload | src-tauri/src/utils/skinextract.rs:171-196 | A folder qualifies exactly when its walk has a `natives` directory or a pak file. |
| SkinScan.ScanFolder | src-tauri/src/utils/skinextract.rs:146-227 | One loop pass adds what the folder contributes to the scan. |
| SkinScan.ScanFolders | src-tauri/src/utils/skinextract.rs:146-227 | The loop builds the scanned list in walk order. |
| SkinScan.ScanForSkinMods | src-tauri/src/utils/skinextract.rs:116-236 | The command returns the scan outcome. |
| SkinExtract.LoadRegistry | src-tauri/src/utils/skinextract.rs:61-85 | A missing, vanished or empty file is an empty registry. Loading fails exactly when the file is unreadable or is non-empty text that does not parse. |
| SkinExtract.LastOwner | src-tauri/src/utils/skinextract.rs:615-617 | The standing owner of a target is never the mod being enabled. |
| SkinExtract.LastOwnerNoneIffUnclaimed | src-tauri/src/utils/skinextract.rs:615-625 | A target has no owner exactly when no other enabled mod claims it. |
| SkinExtract.LastOwnerIsLastClaimant | src-tauri/src/utils/skinextract.rs:620-625 | The owner is the last claimant in registry order, because the map keeps the last insert. |
| SkinExtract.ConflictsAreStandingClaims | src-tauri/src/utils/skinextract.rs:607-635 | Every reported conflict names an incoming target and its owner, and every incoming target with an owner is reported. With no other mod enabled there is no conflict. |
| SkinExtract.IndexIsLastOwner | src-tauri/src/utils/skinextract.rs:620-625 | The target-to-owner map built from the enabled mods names exactly the last claimant of each target. |
| SkinExtract.IndexEnabledFiles | src-tauri/src/utils/skinextract.rs:615-625 | The loop builds the target-to-owner map of the enabled mods. |
| SkinExtract.FindConflicts | src-tauri/src/utils/skinextract.rs:607-635 | `find_conflicts_with_enabled_mods` returns exactly the expected conflicts. |
| SkinExtract.ResolveOne | src-tauri/src/utils/skinextract.rs:643-666 | A missing mod, file record or target changes nothing. When all are there and the rename succeeds, the first matching record of the first matching mod is switched off. Otherwise the parked copy holds the target's bytes, and only the owner's record of that file is switched off. A failed rename leaves the disk untouched. |
| SkinExtract.ResolveAll | src-tauri/src/utils/skinextract.rs:638-669 | Resolution switches off only records that some conflict names, and the first failure stops it. |
| SkinExtract.ResolveSparesUnnamedMods | src-tauri/src/utils/skinextract.rs:638-669 | Resolution never changes a mod's flag, its other fields, or the records of a mod that no conflict names. |
| SkinExtract.ResolveConflicts | src-tauri/src/utils/skinextract.rs:638-669 | The loop returns the resolution outcome. |
| SkinExtract.InstallOriginal | src-tauri/src/utils/skinextract.rs:284-296 | When the original exists and its parent can be made and the copy succeeds, the target then holds the original's bytes. A missing original leaves the disk alone. |
| SkinExtract.EnableFile | src-tauri/src/utils/skinextract.rs:274-297 | A parked copy is renamed back, so the target holds its bytes. Otherwise a missing target gets the original's bytes. Otherwise, or with no original, nothing changes. |
| SkinExtract.DisableFile | src-tauri/src/utils/skinextract.rs:334-344 | An existing target is renamed to its `.disabled` name; a missing one is left alone. |
| SkinExtract.DisableThenEnableFile | src-tauri/src/utils/skinextract.rs:273-344 | Parking a file and putting it back restores the disk, when nothing was parked under that name before. |
| SkinExtract.EnableFoundEffect | src-tauri/src/utils/skinextract.rs:256-307 | A successful enable saves the mod switched on with its own records untouched. Every other mod keeps its flag and fields and loses at most the records of files the incoming mod takes over. |
| SkinExtract.ExpectedResolution | src-tauri/src/utils/skinextract.rs:264-270 | Resolving the conflicts leaves the mod being enabled unchanged and switches off only named records. |
| SkinExtract.EnableUnknownMod | src-tauri/src/utils/skinextract.rs:256-257 | Enabling a path the registry does not hold fails and leaves the disk alone. |
| SkinExtract.DisableFiles | src-tauri/src/utils/skinextract.rs:334-344 | When no target is another's `.disabled` name, a successful loop has moved every target that existed to its `.disabled` name with its bytes, and touched nothing else. A failure is a rename failure. |
| SkinExtract.DisableEffect | src-tauri/src/utils/skinextract.rs:311-353 | Disabling switches the mod off with its records unchanged and changes no other mod. On the disk, every target that existed is parked under its `.disabled` name with its bytes and nothing else changes. A mod the registry lacks is a not-found error that leaves the disk alone. |
| SkinExtract.EnableFiles | src-tauri/src/utils/skinextract.rs:273-298 | When the files stay out of each other's way, a successful loop has placed every file: a parked copy back on its target, else a present target kept, else the original copied in. Nothing changes but the targets, their parked names and new directories above them. |
| SkinExtract.EnableWithoutConflictsEffect | src-tauri/src/utils/skinextract.rs:240-307 | When no enabled mod claims any of the mod's targets, a successful enable places every file as `EnableFiles` says and changes nothing else on the disk. |
| SkinExtract.PlaceFile | src-tauri/src/utils/skinextract.rs:274-297 | One pass of the enable loop puts one file in place as `EnableFile` says. |
| SkinExtract.PlaceFiles | src-tauri/src/utils/skinextract.rs:273-298 | The enable loop places the files in order and stops at the first failure. |
| SkinExtract.EnableSkinMod | src-tauri/src/utils/skinextract.rs:240-307 | The command returns the enable outcome: the root check, the lookup, conflict resolution, the file loop and the flag. |
| SkinExtract.DisableSkinMod | src-tauri/src/utils/skinextract.rs:311-353 | The command returns the disable outcome: the root check, the lookup, the parking loop and the flag. |
| SkinExtract.ListInstalledSkinMods | src-tauri/src/utils/skinextract.rs:357-366 | It lists the stored registry's mods as stored and fails exactly when loading fails. |
| SkinExtract.SharedTargetConflict | src-tauri/src/utils/skinextract.rs:607-635 | When an enabled mod `a` ships `b`'s single target, that target owned by `a` is `b`'s only conflict. |
| SkinExtract.SharedTargetResolved | src-tauri/src/utils/skinextract.rs:638-669 | Resolving that conflict parks the target and switches `a`'s record off. |
| SkinExtract.ParkAndRestore | src-tauri/src/utils/skinextract.rs:273-344 | Renaming an entry to a free name and straight back restores the disk. |
| SkinExtract.AsWrittenRestoresParked | src-tauri/src/utils/skinextract.rs:273-281 | With the target parked, the enable loop as written finds the `.disabled` name taken and renames it back. |
| SkinExtract.EnableOverConflictKeepsLoserBytes | src-tauri/src/utils/skinextract.rs:264-298 | Enabling `b` over `a`'s shared target succeeds with `b` marked on and `a`'s record off, yet the game file still holds `a`'s bytes (see Findings). |
| SkinExtract.EnableFoundCorrectedEffect | src-tauri/src/utils/skinextract.rs:256-307 | The corrected enable saves the same registry that the command as written promises. |
| SkinExtract.PlaceFilesAfterResolve | src-tauri/src/utils/skinextract.rs:273-298 | The corrected loop installs the incoming original on a displaced target and places any other file as before. |
| SkinExtract.EnableSkinModCorrected | src-tauri/src/utils/skinextract.rs:240-307 | The corrected command returns the corrected enable outcome. |
| SkinExtract.InstallIntoExistingDirs | src-tauri/src/utils/skinextract.rs:284-296 | When every directory above the target exists, installing copies the original's bytes onto the target and leaves the parked copy alone. |
| SkinExtract.ParkTarget | src-tauri/src/utils/skinextract.rs:653-663 | Parking a file target moves its bytes to the `.disabled` name and leaves every other entry alone. |
| SkinExtract.CorrectedPlacesIncoming | src-tauri/src/utils/skinextract.rs:273-298 | After resolution parks the target, the corrected loop installs the incoming original there. |
| SkinExtract.CorrectedEnableInstallsIncoming | src-tauri/src/utils/skinextract.rs:240-307 | In the shared-target case, the corrected enable leaves `b`'s bytes in the game file and `a`'s copy parked beside it. |
| SkinManager.LoadRegistry | src-tauri/src/utils/skinmanager.rs:35-59 | A missing, vanished or empty file is an empty registry. Loading fails exactly when the file is unreadable or is non-empty text that does not parse. |
| SkinManager.FirstCandidateIsFirst | src-tauri/src/utils/skinmanager.rs:442-447 | The candidate found in a folder is the earliest listed name that is a file there; nothing is found only when no name is a file. |
| SkinManager.FirstCandidateFound | src-tauri/src/utils/skinmanager.rs:442-447 | A folder yields a candidate exactly when it holds one. |
| SkinManager.FirstInSubdirsNone | src-tauri/src/utils/skinmanager.rs:450-462 | No subdirectory yields a screenshot exactly when none holds a candidate. |
| SkinManager.FirstInSubdirsIsFirst | src-tauri/src/utils/skinmanager.rs:450-462 | The subdirectory used is the first one, in listing order, that holds a candidate. |
| SkinManager.FindScreenshot | src-tauri/src/utils/skinmanager.rs:426-465 | A found screenshot is the text of a file in the mod folder or in one of its listed subdirectories, and a folder holding a candidate always yields one. |
| SkinManager.FindScreenshotOrder | src-tauri/src/utils/skinmanager.rs:426-465 | A candidate in the mod folder wins over any in a subdirectory, and within a folder the earliest name wins. Nothing is found only when no folder searched holds a candidate. |
| SkinManager.ScannedModsSound | src-tauri/src/utils/skinmanager.rs:120-171 | Every scanned entry comes from a directory of the walk other than the mods directory. It is the registry's entry for that directory's path or, when the registry lacks it, a new entry for the directory. |
| SkinManager.ScannedModsComplete | src-tauri/src/utils/skinmanager.rs:120-171 | Every folder of the walk is scanned. |
| SkinManager.ScanMerge | src-tauri/src/utils/skinmanager.rs:89-180 | Every returned entry belongs to a walked directory. It is the registry's old entry for it or, when the registry lacks it, a new entry that is off, with nothing installed and no author, version or description. Old entries whose directory is no longer walked are dropped. Every folder is returned and the saved registry lists exactly the returned entries. |
| SkinManager.ScanEarlyExits | src-tauri/src/utils/skinmanager.rs:95-110 | An invalid root is an error, and a missing mods directory finds nothing and saves nothing. Otherwise the scan fails exactly when loading fails. |
| SkinManager.ScanFolder | src-tauri/src/utils/skinmanager.rs:125-169 | One loop pass adds what the folder contributes. |
| SkinManager.ScanFolders | src-tauri/src/utils/skinmanager.rs:120-171 | The loop builds the scanned list in walk order. |
| SkinManager.ScanForSkinMods | src-tauri/src/utils/skinmanager.rs:89-180 | The command returns the scan outcome. |
| SkinManager.InstallPaksWrites | src-tauri/src/utils/skinmanager.rs:215-251 | The pak loop writes exactly the destinations it lists, each the game root joined with a pak's file name. |
| SkinManager.InstallNativesWrites | src-tauri/src/utils/skinmanager.rs:265-303 | The natives loop writes exactly the destinations it lists, each the game's `natives` joined with a file's relative path. |
| SkinManager.NativesPhaseWrites | src-tauri/src/utils/skinmanager.rs:254-304 | The natives step writes only the destinations it lists, plus new directories. |
| SkinManager.EnableRecordsDestinations | src-tauri/src/utils/skinmanager.rs:211-322 | A successful enable saves the mod switched on, with `installed_files` listing destinations of the pak loop followed by destinations of the natives loop. Every written path is recorded and is a file, and no other entry changes. |
| SkinManager.PakSources | src-tauri/src/utils/skinmanager.rs:215-224 | The files the pak loop copies are exactly the pak files of the walk. |
| SkinManager.NativesSources | src-tauri/src/utils/skinmanager.rs:265-275 | The files the natives loop copies are exactly the files of the walk that lie below the mod's `natives`. |
| SkinManager.InstallPaksCopies | src-tauri/src/utils/skinmanager.rs:215-251 | When no destination is an entry of the walk, the pak loop lists exactly the destinations of the walk's paks, in walk order. Each destination holds its pak's bytes, and no directory is made. |
| SkinManager.InstallNativesCopies | src-tauri/src/utils/skinmanager.rs:265-303 | When no destination is an entry of the walk, the natives loop lists exactly the destinations of the walk's files below the mod's `natives`, in walk order, and each holds its file's bytes. |
| SkinManager.NativesPhaseCopies | src-tauri/src/utils/skinmanager.rs:254-304 | The same for the natives step, which copies nothing when the mod has no `natives` folder. |
| SkinManager.EnableCopiesSources | src-tauri/src/utils/skinmanager.rs:211-322 | When no destination is an entry of either walk, a successful enable records exactly the pak destinations and then the natives destinations, each in walk order. Each destination holds its source's bytes (the last source's, where two share one), and nothing but those destinations and new directories changes. |
| SkinManager.EnableEarlyErrors | src-tauri/src/utils/skinmanager.rs:191-209 | An invalid game root or mod folder, or a mod the registry lacks, fails before the disk is touched. |
| SkinManager.CopyPakFiles | src-tauri/src/utils/skinmanager.rs:215-251 | The pak loop's outcome is that of `InstallPaks`. |
| SkinManager.CopyNativesFiles | src-tauri/src/utils/skinmanager.rs:265-303 | The natives loop's outcome is that of `InstallNatives`. |
| SkinManager.EnableSkinMod | src-tauri/src/utils/skinmanager.rs:184-326 | The command returns the enable outcome. |
| SkinManager.RemoveRecordedEffect | src-tauri/src/utils/skinmanager.rs:367-380 | Removal takes away exactly the recorded paths that are removable files, whatever fails along the way, and leaves every other entry alone. |
| SkinManager.DisableEffect | src-tauri/src/utils/skinmanager.rs:343-389 | A mod already off is left alone and nothing is saved. Otherwise the mod is switched off with an empty record, no other entry changes, and the disk loses exactly its recorded removable files. |
| SkinManager.DisableEarlyErrors | src-tauri/src/utils/skinmanager.rs:337-350 | An invalid game root, or a mod the registry lacks, fails without touching the disk. |
| SkinManager.DisableSkinMod | src-tauri/src/utils/skinmanager.rs:330-393 | The command returns the disable outcome. |
| SkinManager.RecordedWritten | src-tauri/src/utils/skinmanager.rs:250-302 | Reading back the rendered record of well-formed paths gives exactly those paths. |
| SkinManager.RemoveWritten | src-tauri/src/utils/skinmanager.rs:367-380 | Removing the record of what was written takes away every written path and nothing else. |
| SkinManager.DisableSaved | src-tauri/src/utils/skinmanager.rs:343-389 | Disabling an enabled mod on the registry an enable saved removes what the enable recorded. |
| SkinManager.EnableThenDisable | src-tauri/src/utils/skinmanager.rs:184-393 | Enabling and then disabling the same mod removes every file the enable installed and switches the mod off with an empty record. The rest of the disk is as the enable left it. |
| Config.SearchFindsNearest | src-tauri/src/utils/config.rs:30-74 | On success the search returns the nearest folder, from the start upwards, that sits in `steamapps/common`, together with that `steamapps`. |
| Config.SearchFailsWithoutRoot | src-tauri/src/utils/config.rs:30-74 | When no folder from the start upwards sits in `steamapps/common`, the search fails. |
| Config.FindGamePathsResult | src-tauri/src/utils/config.rs:13-75 | An executable that is not a file fails. Otherwise the result is the nearest ancestor whose parent is `common` and grandparent `steamapps`, with that grandparent, and with no such ancestor the call fails. |
| Config.FindGamePathsFromExe | src-tauri/src/utils/config.rs:13-75 | The climbing loop returns the search's outcome. |
| Config.ValidateGameInstallation | src-tauri/src/utils/config.rs:79-99 | It succeeds exactly when the search does, with the found root and the executable as given. |
| Config.BackupName | src-tauri/src/utils/config.rs:128-134 | A corrupt configuration's backup sits beside it, named `userconfig.json.corrupt-<secs>`. |
| Config.LoadConfig | src-tauri/src/utils/config.rs:121-150 | A successful load leaves the disk alone. It finds nothing only when the file does not exist, and otherwise gives what the file's text decodes to. |
| Config.SaveConfig | src-tauri/src/utils/config.rs:103-118 | A successful save leaves the encoded data in the configuration file and every other existing entry as it was. |
| Config.DeleteConfig | src-tauri/src/utils/config.rs:153-160 | A successful delete removes the configuration file and nothing else. A failed one leaves the disk alone, and the file was there. |
| Config.LoadConfigCases | src-tauri/src/utils/config.rs:121-150 | An absent file gives no configuration and a decodable file gives its data, both leaving the disk alone. An undecodable file fails and is moved to its backup when it may be. An unreadable file fails. |
| Config.LoadAfterSave | src-tauri/src/utils/config.rs:103-150 | Saving data that round-trips through the encoding, then loading, gives that data back. |
| Config.DeleteIdempotent | src-tauri/src/utils/config.rs:153-160 | After a successful delete, the file is gone, a second delete succeeds without touching the disk, and loading finds no configuration. |
| TempPermission.Channel.constructor | src-tauri/src/utils/tempermission.rs:31 | A new channel has received nothing and is listening. |
| TempPermission.Channel.Send | src-tauri/src/utils/tempermission.rs:55-60 | A send succeeds exactly when the channel is open, and only then appends the event. |
| TempPermission.Channel.Close | src-tauri/src/utils/tempermission.rs:73-80 | After the frontend stops listening, nothing received is lost and later sends fail. |
| TempPermission.RunAction | src-tauri/src/utils/tempermission.rs:63 | The action returns its own result. The channel receives its progress events only while open, and stays open only if the frontend still listens. |
| TempPermission.CheckRoot | src-tauri/src/utils/tempermission.rs:40-52 | The root check passes exactly when the configuration is present and names the requested root, compared as paths component by component, so a leading `./` on one side only is a mismatch. An unreadable or missing configuration fails with its own error, and a mismatch reports both roots. |
| TempPermission.WithGameDirWriteAccess | src-tauri/src/utils/tempermission.rs:28-101 | The guard's disk, sent events and result are those of the guarded run on the loaded configuration. |
| TempPermission.RejectedSendsNothing | src-tauri/src/utils/tempermission.rs:40-52 | A call rejected by the root check sends nothing, does not run the action, and fails with the root check's error. |
| TempPermission.StartedBeforeAction | src-tauri/src/utils/tempermission.rs:54-63 | The action runs exactly when the root check passes and `Started` is delivered. `Started` is then the first event, before anything the action sends. |
| TempPermission.ExactlyOneFinished | src-tauri/src/utils/tempermission.rs:63-100 | Once the action has run, exactly one `Finished` is sent if the channel still listens. It is the last event, its `success` says whether the action returned `Ok`, and the caller gets the action's result. Otherwise no `Finished` arrives and the call fails. |

## Left out

- Event channel: `tauri`'s `Channel` is modelled as a list of delivered events plus an open flag. Serialisation of events to the frontend is not modelled.
- Progress events: the `f32` progress value of `Progress` events is a `real`. Nothing is computed from it.
- JSON: encoding and decoding of every registry and configuration file are not modelled.
  - A stored file is given as its text plus what decoding makes of it.
  - `save` (modregistry.rs:194-207) and the `save_registry` functions become a save that succeeds or fails (`saveSucceeds`), or simply the registry value returned for saving.
- Locating files: `get_registry_path`, `get_config_path` and the app configuration directory are parameters.
- Clocks: every clock reading (`chrono::Utc::now`, `SystemTime::now`) is the parameter `now` or `secs`.
- Walks and listings: `WalkDir` walks (their order, depth limits and per-entry errors), `read_dir` listings and file sizes are inputs, and the model trusts them to be what the source's walks would yield.
- Folder inspection: `find_mod_info_and_screenshot` (skinextract.rs:411-485) is given as the parameter `inspect`. The file is not part of this model beyond the `modinfo.ini` parser.
- Text encoding: UTF-8 conversion failures (`to_str` returning `None`, lossy conversion) are not modelled, because paths are sequences of characters.
  - As a result, `index_mod_files`' invalid-file-name error cannot occur in the model.
  - The "invalid UTF-8" error of `validate_game_installation` cannot occur either.
- Dead code: the `current_path == parent_path` check in `find_game_paths_from_exe` (config.rs:66-71) cannot trigger after a successful `parent()`, so the search has no such branch.
- TempPermission.ExactlyOneFinished: proved only for actions whose own events are progress, never `Finished`; an action that sends `Finished` itself would add to the count.
- TempPermission.RunAction: what the guarded action does to the game directory is not modelled here. It is modelled by the command the action stands for.
- Logging: every `log::` call is left out.
- `cachethumbs.rs`, the Nexus API, `lib.rs` command registration and the frontend are not part of this model.
- Copy failures: a copy fails when its destination is a path that cannot be written. Other I/O failures, such as a full disk or permissions on the source, are not distinguished.
- Registry.ModRegistry.UpdateModEnabledStatus: the source logs its warnings. The model returns them as a list.
- Disk.Rename: renames only the named entry, not entries below it. Every rename the commands make is of an indexed file or the configuration file, so nothing lies below it. The user's external rename of a mod directory is `Disk.RenameDir`, which moves the whole subtree.
- Strings.ToLower: folds `A` to `Z` and the Kelvin sign (U+212A, which lower-cases to `k`), the only characters that lower-case to an ASCII letter alone. Other letters keep their case; U+0130 lower-cases to `i` plus a combining dot, which matches no ASCII word either. The lower-cased keys are only ever compared with ASCII words, so this decides the same comparisons as Rust's `to_lowercase`.
- Paths.Render: rebuilds text from components, so a relative path given with a trailing `/` or with `.` pieces renders without them. `format!("{}.disabled", ...)` on such text would give a different name. The paths the commands disable are joined from components and have neither.
- Paths.Parse: drops a leading `.` component, which `Path::components` keeps as `CurDir`. The only comparison of raw path text, the root check, uses `Paths.SamePath`, which takes it into account.
- SkinScan.ParseModinfoFile: file contents are always readable text. A read failure or a `modinfo.ini` that is not UTF-8, which the source turns into no record (so the folder name is used), is not modelled.
- SkinManager.EnableCopiesSources: the exact record and the copied bytes are stated only when no destination is itself an entry of either walk. When one is, an earlier copy can change what a later step of the walk sees. `EnableRecordsDestinations` covers every case, without the order or the bytes.
- SkinManager.InstallPaksCopies: under the same condition, for the pak loop alone.
- SkinManager.InstallNativesCopies: under the same condition, for the natives loop alone.
- SkinManager.NativesPhaseCopies: under the same condition, for the natives step alone.
- SkinExtract.DisableFiles: the disk effect is stated only when no target is another target's `.disabled` name. When one is, an earlier rename can land on a later target, and the model does not say what the loop then leaves behind.
- SkinExtract.DisableEffect: its disk clause carries the same condition as `DisableFiles`.
- SkinExtract.EnableFiles: the disk effect is stated only when the targets are distinct, no target or original is another target's `.disabled` name, no original is a target, and no target or parked name is a directory above another target. Nested or colliding targets are not covered.
- SkinExtract.EnableWithoutConflictsEffect: covers only an enable with no conflicting mod, under the same conditions as `EnableFiles`. With conflicts, the disk effect is stated only for one shared target (`SharedTargetResolved`, `EnableOverConflictKeepsLoserBytes`, `CorrectedEnableInstallsIncoming`).

## Findings

| source | as written | input that shows it | evidently intended | confidence | as-written member | corrected member |
|---|---|---|---|---|---|---|
| src-tauri/src/utils/skinextract.rs:264-298 | `resolve_conflicts` renames the current owner's copy of a shared target to `<target>.disabled`. The enable loop then sees that `.disabled` name exists and renames it back onto the target, as if it were the incoming mod's own parked copy. | The registry holds mod `a`, enabled, and mod `b`, disabled, each shipping the single target `x.pak`, and `<root>/x.pak` holds `a`'s bytes. Enabling `b` succeeds, marks `b` on and `a`'s record off, yet `<root>/x.pak` still holds `a`'s bytes and `b`'s file was never copied. | A target that resolution has just parked should receive the incoming mod's original, and the loser's copy should stay parked. | not executed | SkinExtract.EnableOverConflictKeepsLoserBytes | SkinExtract.CorrectedEnableInstallsIncoming |
