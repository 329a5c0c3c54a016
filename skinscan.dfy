/**
 * The discovery half of skinextract.rs: reading `modinfo.ini`, listing the
 * payload files of a mod folder with the paths they take under the game root,
 * and merging a scan of `fossmodmanager/mods` into the registry.
 */
module SkinScan {
  import opened Base
  import opened Strings
  import opened Paths
  import opened Disk
  import opened Manifest
  import opened FolderNames
  import opened Keyed
  import SkinExtract

  // ---------------------------------------------------------------------------
  // modinfo.ini
  // ---------------------------------------------------------------------------

  datatype ModInfo = ModInfo(
    name: Option<string>, author: Option<string>, version: Option<string>, description: Option<string>)

  const NoInfo := ModInfo(None, None, None, None)

  /** A line the parser passes over: blank once trimmed, or a `;` or `#` comment. */
  predicate Skipped(line: string)
  {
    var t := Trim(line);
    t == "" || StartsWith(t, ";") || StartsWith(t, "#")
  }

  /** The key, lower-cased, and the value of a `key = value` line, both trimmed. */
  function Entry(line: string): (r: Option<(string, string)>)
    ensures r.Some? <==> !Skipped(line) && '=' in Trim(line)
  {
    if Skipped(line) then None
    else match SplitOnce(Trim(line), '=')
      case None => None
      case Some((k, v)) => Some((ToLower(Trim(k)), Trim(v)))
  }

  /** Every field that is set holds a non-empty value. */
  predicate FieldsNonEmpty(info: ModInfo)
  {
    && (info.name.Some? ==> info.name.value != "")
    && (info.author.Some? ==> info.author.value != "")
    && (info.version.Some? ==> info.version.value != "")
    && (info.description.Some? ==> info.description.value != "")
  }

  /** What one line does to the record: a known key with a non-empty value sets its field. */
  function ApplyLine(info: ModInfo, line: string): (r: ModInfo)
    ensures FieldsNonEmpty(info) ==> FieldsNonEmpty(r)
  {
    match Entry(line)
    case None => info
    case Some((key, value)) =>
      if value == "" then info
      else if key == "name" then info.(name := Some(value))
      else if key == "author" then info.(author := Some(value))
      else if key == "version" then info.(version := Some(value))
      else if key == "description" then info.(description := Some(value))
      else info
  }

  /** The record the lines build, read top to bottom: a field is either unset or non-empty. */
  function ParseModInfo(lines: seq<string>): (r: ModInfo)
    ensures FieldsNonEmpty(r)
    ensures lines == [] ==> r == NoInfo
  {
    if lines == [] then NoInfo
    else ApplyLine(ParseModInfo(lines[..|lines| - 1]), lines[|lines| - 1])
  }

  /** The value of the last line that gives `key` a non-empty value. */
  function LastValue(lines: seq<string>, key: string): (r: Option<string>)
    ensures r.Some? ==> r.value != ""
  {
    if lines == [] then None
    else
      var n := |lines|;
      match Entry(lines[n - 1])
      case Some((k, v)) => if k == key && v != "" then Some(v) else LastValue(lines[..n - 1], key)
      case None => LastValue(lines[..n - 1], key)
  }

  /** Each field holds its key's last non-empty value; the fields do not interfere. */
  lemma {:induction false} ParseModInfoFieldwise(lines: seq<string>)
    ensures ParseModInfo(lines)
         == ModInfo(LastValue(lines, "name"), LastValue(lines, "author"),
                    LastValue(lines, "version"), LastValue(lines, "description"))
  {
    if lines != [] {
      ParseModInfoFieldwise(lines[..|lines| - 1]);
    }
  }

  /** Reading one more line applies that line to the record read so far. */
  lemma ParseModInfoSnoc(lines: seq<string>, line: string)
    ensures ParseModInfo(lines + [line]) == ApplyLine(ParseModInfo(lines), line)
  {
    assert (lines + [line])[..|lines|] == lines;
  }

  /** A blank line, a comment or a line without `=` leaves the record as it is. */
  lemma IgnoredLineKeeps(info: ModInfo, line: string)
    requires Skipped(line) || '=' !in Trim(line)
    ensures ApplyLine(info, line) == info
  {
  }

  lemma SplitLast<T>(a: seq<T>, b: seq<T>)
    requires b != []
    ensures a + b == (a + b[..|b| - 1]) + [b[|b| - 1]]
  {
  }

  /** Lines that build the same record keep building the same record after one more line. */
  lemma SameAfterSnoc(p: seq<string>, q: seq<string>, x: string)
    requires ParseModInfo(p) == ParseModInfo(q)
    ensures ParseModInfo(p + [x]) == ParseModInfo(q + [x])
  {
    ParseModInfoSnoc(p, x);
    ParseModInfoSnoc(q, x);
  }

  lemma IgnoredLineLast(a: seq<string>, line: string)
    requires Skipped(line) || '=' !in Trim(line)
    ensures ParseModInfo(a + [line]) == ParseModInfo(a)
  {
    ParseModInfoSnoc(a, line);
    IgnoredLineKeeps(ParseModInfo(a), line);
  }

  /** A blank line, a comment or a line without `=` can be dropped from anywhere. */
  lemma {:induction false} IgnoredLineAnywhere(a: seq<string>, line: string, b: seq<string>)
    requires Skipped(line) || '=' !in Trim(line)
    ensures ParseModInfo(a + [line] + b) == ParseModInfo(a + b)
    decreases |b|
  {
    if b == [] {
      IgnoredLineLast(a, line);
      assert a + [line] + b == a + [line];
      assert a + b == a;
    } else {
      var c := b[..|b| - 1];
      var x := b[|b| - 1];
      IgnoredLineAnywhere(a, line, c);
      SameAfterSnoc(a + [line] + c, a + c, x);
      SplitLast(a + [line], b);
      SplitLast(a, b);
    }
  }

  lemma ParseModInfoStep(lines: seq<string>, i: nat)
    requires i < |lines|
    ensures ParseModInfo(lines[..i + 1]) == ApplyLine(ParseModInfo(lines[..i]), lines[i])
  {
    assert lines[..i + 1][..i] == lines[..i];
  }

  /** `parse_modinfo_file`: nothing unless the path is a file; otherwise the record its lines build. */
  method ParseModinfoFile(fs: FileSystem, modinfoPath: Path) returns (info: Option<ModInfo>)
    ensures info.None? <==> !IsFile(fs, modinfoPath)
    ensures info.Some? ==> info.value == ParseModInfo(Lines(fs.entries[modinfoPath].content))
  {
    if !Exists(fs, modinfoPath) || !IsFile(fs, modinfoPath) {
      return None;
    }
    var content := ReadFile(fs, modinfoPath);
    if content.Err? {
      return None;
    }
    var lines := Lines(content.value);
    var result := NoInfo;
    var i := 0;
    while i < |lines|
      invariant 0 <= i <= |lines|
      invariant result == ParseModInfo(lines[..i])
    {
      var line := Trim(lines[i]);
      ParseModInfoStep(lines, i);
      if line == "" || StartsWith(line, ";") || StartsWith(line, "#") {
        assert Entry(lines[i]).None?;
        i := i + 1;
        continue;
      }
      var split := SplitOnce(line, '=');
      assert split.None? ==> Entry(lines[i]).None?;
      if split.Some? {
        var key := ToLower(Trim(split.value.0));
        var value := Trim(split.value.1);
        assert Entry(lines[i]) == Some((key, value));
        if value != "" {
          if key == "name" {
            result := result.(name := Some(value));
          } else if key == "author" {
            result := result.(author := Some(value));
          } else if key == "version" {
            result := result.(version := Some(value));
          } else if key == "description" {
            result := result.(description := Some(value));
          }
        }
      }
      i := i + 1;
    }
    assert lines[..i] == lines;
    return Some(result);
  }

  // ---------------------------------------------------------------------------
  // index_mod_files
  // ---------------------------------------------------------------------------

  /** A directory named `natives`, in any case. */
  predicate IsNativesDir(fs: FileSystem, p: Path)
  {
    IsDir(fs, p) && FileName(p).Some? && ToLower(FileName(p).value) == "natives"
  }

  /** `PathBuf::from("natives").join(rel)`, rendered. */
  function NativesRelativePath(rel: Path): (r: string)
    ensures !rel.absolute && rel.parts != [] ==> r == "natives/" + Render(rel)
  {
    Render(Path(false, ["natives"] + rel.parts))
  }

  /** The pak entries: one per pak file of the shallow walk whose size is known, named by its file name. */
  function PakEntries(fs: FileSystem, walk: seq<Path>, sizes: map<Path, nat>): (r: seq<ModFile>)
    ensures |r| <= |walk|
  {
    if walk == [] then []
    else
      var n := |walk|;
      var p := walk[n - 1];
      var files := PakEntries(fs, walk[..n - 1], sizes);
      if IsPak(fs, p) && p in sizes then files + [ModFile(FileName(p).value, Render(p), PakFile, false, sizes[p])]
      else files
  }

  /** Every pak entry comes from a pak file of the walk, named by its bare file name and switched off. */
  lemma {:induction false} PakEntriesSound(fs: FileSystem, walk: seq<Path>, sizes: map<Path, nat>)
    ensures forall f :: f in PakEntries(fs, walk, sizes) ==>
              f.fileType == PakFile && !f.enabled
              && exists p :: p in walk && IsPak(fs, p) && p in sizes && f.originalPath == Render(p)
                             && FileName(p) == Some(f.relativePath) && f.sizeBytes == sizes[p]
  {
    if walk != [] {
      var n := |walk|;
      PakEntriesSound(fs, walk[..n - 1], sizes);
      assert forall q :: q in walk[..n - 1] ==> q in walk;
    }
  }

  /** Every pak file of the walk whose size is known gets an entry. */
  lemma {:induction false} PakEntriesComplete(fs: FileSystem, walk: seq<Path>, sizes: map<Path, nat>)
    ensures forall p :: p in walk && IsPak(fs, p) && p in sizes ==>
              exists f :: f in PakEntries(fs, walk, sizes) && f.originalPath == Render(p)
                          && Some(f.relativePath) == FileName(p)
  {
    if walk != [] {
      var n := |walk|;
      var p := walk[n - 1];
      PakEntriesComplete(fs, walk[..n - 1], sizes);
      assert forall q :: q in walk ==> q in walk[..n - 1] || q == p;
      var prev := PakEntries(fs, walk[..n - 1], sizes);
      assert forall f :: f in prev ==> f in PakEntries(fs, walk, sizes);
      if IsPak(fs, p) && p in sizes {
        var f := ModFile(FileName(p).value, Render(p), PakFile, false, sizes[p]);
        assert PakEntries(fs, walk, sizes) == prev + [f];
        assert f in PakEntries(fs, walk, sizes);
      }
    }
  }

  lemma PakEntriesStep(fs: FileSystem, walk: seq<Path>, sizes: map<Path, nat>, i: nat)
    requires i < |walk|
    ensures PakEntries(fs, walk[..i + 1], sizes)
         == PakEntries(fs, walk[..i], sizes)
            + (if IsPak(fs, walk[i]) && walk[i] in sizes
               then [ModFile(FileName(walk[i]).value, Render(walk[i]), PakFile, false, sizes[walk[i]])] else [])
  {
    assert walk[..i + 1][..i] == walk[..i];
  }

  /** The entries for one `natives` directory: every file of the walk strictly below it whose size is known. */
  function NativesEntriesOf(fs: FileSystem, dir: Path, walk: seq<Path>, sizes: map<Path, nat>): (r: seq<ModFile>)
    ensures |r| <= |walk|
  {
    if walk == [] then []
    else
      var n := |walk|;
      var p := walk[n - 1];
      var files := NativesEntriesOf(fs, dir, walk[..n - 1], sizes);
      if IsFile(fs, p) && IsProperAncestor(dir, p) && p in sizes then
        files + [ModFile(NativesRelativePath(StripPrefix(p, dir).value), Render(p), NativesFile, false, sizes[p])]
      else files
  }

  /** Every entry of a `natives` directory comes from a file strictly below it, named `natives/` and its relative path. */
  lemma {:induction false} NativesEntriesOfSound(fs: FileSystem, dir: Path, walk: seq<Path>, sizes: map<Path, nat>)
    ensures forall f :: f in NativesEntriesOf(fs, dir, walk, sizes) ==>
              f.fileType == NativesFile && !f.enabled
              && exists p :: p in walk && IsFile(fs, p) && p in sizes && IsProperAncestor(dir, p)
                             && f.originalPath == Render(p) && f.sizeBytes == sizes[p]
                             && f.relativePath == NativesRelativePath(StripPrefix(p, dir).value)
  {
    if walk != [] {
      var n := |walk|;
      NativesEntriesOfSound(fs, dir, walk[..n - 1], sizes);
      assert forall q :: q in walk[..n - 1] ==> q in walk;
    }
  }

  /** Every file strictly below a `natives` directory whose size is known gets an entry. */
  lemma {:induction false} NativesEntriesOfComplete(fs: FileSystem, dir: Path, walk: seq<Path>, sizes: map<Path, nat>)
    ensures forall p :: p in walk && IsFile(fs, p) && p in sizes && IsProperAncestor(dir, p) ==>
              exists f :: f in NativesEntriesOf(fs, dir, walk, sizes) && f.originalPath == Render(p)
  {
    if walk != [] {
      var n := |walk|;
      var p := walk[n - 1];
      NativesEntriesOfComplete(fs, dir, walk[..n - 1], sizes);
      assert forall q :: q in walk ==> q in walk[..n - 1] || q == p;
      var prev := NativesEntriesOf(fs, dir, walk[..n - 1], sizes);
      assert forall f :: f in prev ==> f in NativesEntriesOf(fs, dir, walk, sizes);
      if IsFile(fs, p) && IsProperAncestor(dir, p) && p in sizes {
        var f := ModFile(NativesRelativePath(StripPrefix(p, dir).value), Render(p), NativesFile, false, sizes[p]);
        assert NativesEntriesOf(fs, dir, walk, sizes) == prev + [f];
        assert f in NativesEntriesOf(fs, dir, walk, sizes);
      }
    }
  }

  lemma NativesEntriesOfStep(fs: FileSystem, dir: Path, walk: seq<Path>, sizes: map<Path, nat>, j: nat)
    requires j < |walk|
    ensures NativesEntriesOf(fs, dir, walk[..j + 1], sizes)
         == NativesEntriesOf(fs, dir, walk[..j], sizes)
            + (if IsFile(fs, walk[j]) && IsProperAncestor(dir, walk[j]) && walk[j] in sizes
               then [ModFile(NativesRelativePath(StripPrefix(walk[j], dir).value), Render(walk[j]), NativesFile, false,
                             sizes[walk[j]])]
               else [])
  {
    assert walk[..j + 1][..j] == walk[..j];
  }

  /** The natives entries: for every `natives` directory of the full walk, in walk order, its files. */
  function NativesEntries(fs: FileSystem, walk: seq<Path>, dirs: seq<Path>, sizes: map<Path, nat>): seq<ModFile>
  {
    if dirs == [] then []
    else
      var n := |dirs|;
      var d := dirs[n - 1];
      NativesEntries(fs, walk, dirs[..n - 1], sizes)
      + (if IsNativesDir(fs, d) then NativesEntriesOf(fs, d, walk, sizes) else [])
  }

  lemma NativesEntriesStep(fs: FileSystem, walk: seq<Path>, dirs: seq<Path>, sizes: map<Path, nat>, i: nat)
    requires i < |dirs|
    ensures NativesEntries(fs, walk, dirs[..i + 1], sizes)
         == NativesEntries(fs, walk, dirs[..i], sizes)
            + (if IsNativesDir(fs, dirs[i]) then NativesEntriesOf(fs, dirs[i], walk, sizes) else [])
  {
    assert dirs[..i + 1][..i] == dirs[..i];
  }

  /** `index_mod_files`: the pak entries, then the natives entries; every record starts switched off. */
  function IndexedFiles(fs: FileSystem, shallowWalk: seq<Path>, fullWalk: seq<Path>, sizes: map<Path, nat>): seq<ModFile>
  {
    PakEntries(fs, shallowWalk, sizes) + NativesEntries(fs, fullWalk, fullWalk, sizes)
  }

  /** Every natives entry comes from some `natives` directory of the walk. */
  lemma {:induction false} NativesEntriesSound(fs: FileSystem, walk: seq<Path>, dirs: seq<Path>, sizes: map<Path, nat>)
    ensures forall f :: f in NativesEntries(fs, walk, dirs, sizes) ==>
              f.fileType == NativesFile && !f.enabled
              && exists d :: d in dirs && IsNativesDir(fs, d) && f in NativesEntriesOf(fs, d, walk, sizes)
  {
    if dirs != [] {
      var n := |dirs|;
      NativesEntriesSound(fs, walk, dirs[..n - 1], sizes);
      assert forall q :: q in dirs[..n - 1] ==> q in dirs;
      NativesEntriesOfSound(fs, dirs[n - 1], walk, sizes);
    }
  }

  /** Every indexed record starts switched off and is a pak or a natives file. */
  lemma IndexedFilesStartOff(fs: FileSystem, shallowWalk: seq<Path>, fullWalk: seq<Path>, sizes: map<Path, nat>)
    ensures forall f :: f in IndexedFiles(fs, shallowWalk, fullWalk, sizes) ==> !f.enabled && f.fileType != Other
  {
    PakEntriesSound(fs, shallowWalk, sizes);
    NativesEntriesSound(fs, fullWalk, fullWalk, sizes);
  }

  /**
   * Where the indexed files land under the game root: a pak file directly in the
   * root, a file below a `natives` directory at the same place below the root's
   * own `natives`.
   */
  lemma IndexedPakTarget(root: Path, p: Path)
    requires WellFormed(p) && FileName(p).Some?
    ensures SkinExtract.TargetOf(root, FileName(p).value) == Path(root.absolute, root.parts + [FileName(p).value])
  {
    var name := FileName(p).value;
    assert ValidPart(p.parts[|p.parts| - 1]);
    ParseSingle(name);
    assert name[0] in name;
  }

  /** (continued) A file below a `natives` directory. */
  lemma IndexedNativesTarget(root: Path, p: Path, dir: Path)
    requires WellFormed(p) && IsProperAncestor(dir, p)
    ensures SkinExtract.TargetOf(root, NativesRelativePath(StripPrefix(p, dir).value))
            == Path(root.absolute, root.parts + ["natives"] + p.parts[|dir.parts|..])
  {
    var rel := Path(false, ["natives"] + p.parts[|dir.parts|..]);
    assert WellFormed(rel);
    ParseRender(rel);
  }

  /** The pak walk of `index_mod_files`, one entry at a time. */
  method IndexPakFiles(fs: FileSystem, shallowWalk: seq<Path>, sizes: map<Path, nat>) returns (files: seq<ModFile>)
    ensures files == PakEntries(fs, shallowWalk, sizes)
  {
    files := [];
    var i := 0;
    while i < |shallowWalk|
      invariant 0 <= i <= |shallowWalk|
      invariant files == PakEntries(fs, shallowWalk[..i], sizes)
    {
      var filePath := shallowWalk[i];
      PakEntriesStep(fs, shallowWalk, sizes, i);
      if IsFile(fs, filePath) && HasExtension(filePath, "pak") {
        var filename := FileName(filePath).value;
        if filePath in sizes {
          files := files + [ModFile(filename, Render(filePath), PakFile, false, sizes[filePath])];
        }
      }
      i := i + 1;
    }
    assert shallowWalk[..i] == shallowWalk;
  }

  /** The walk of one `natives` directory: its files, relative to it, under `natives/`. */
  method IndexNativesDir(fs: FileSystem, dir: Path, fullWalk: seq<Path>, sizes: map<Path, nat>) returns (files: seq<ModFile>)
    ensures files == NativesEntriesOf(fs, dir, fullWalk, sizes)
  {
    files := [];
    var j := 0;
    while j < |fullWalk|
      invariant 0 <= j <= |fullWalk|
      invariant files == NativesEntriesOf(fs, dir, fullWalk[..j], sizes)
    {
      var filePath := fullWalk[j];
      NativesEntriesOfStep(fs, dir, fullWalk, sizes, j);
      if IsFile(fs, filePath) && IsProperAncestor(dir, filePath) {
        var relPath := StripPrefix(filePath, dir);
        if filePath in sizes {
          files := files + [ModFile(NativesRelativePath(relPath.value), Render(filePath), NativesFile, false, sizes[filePath])];
        }
      }
      j := j + 1;
    }
    assert fullWalk[..j] == fullWalk;
  }

  /** The second half of `index_mod_files`: every `natives` directory of the full walk, in walk order. */
  method IndexNativesDirs(fs: FileSystem, fullWalk: seq<Path>, sizes: map<Path, nat>) returns (files: seq<ModFile>)
    ensures files == NativesEntries(fs, fullWalk, fullWalk, sizes)
  {
    files := [];
    var i := 0;
    while i < |fullWalk|
      invariant 0 <= i <= |fullWalk|
      invariant files == NativesEntries(fs, fullWalk, fullWalk[..i], sizes)
    {
      var path := fullWalk[i];
      NativesEntriesStep(fs, fullWalk, fullWalk, sizes, i);
      if IsDir(fs, path) && FileName(path).Some? && ToLower(FileName(path).value) == "natives" {
        var nativeFiles := IndexNativesDir(fs, path, fullWalk, sizes);
        files := files + nativeFiles;
      }
      i := i + 1;
    }
    assert fullWalk[..i] == fullWalk;
  }

  /** `index_mod_files`: the pak walk, then every `natives` directory of the full walk. */
  method IndexModFiles(fs: FileSystem, shallowWalk: seq<Path>, fullWalk: seq<Path>, sizes: map<Path, nat>)
    returns (files: seq<ModFile>)
    ensures files == IndexedFiles(fs, shallowWalk, fullWalk, sizes)
  {
    var paks := IndexPakFiles(fs, shallowWalk, sizes);
    var natives := IndexNativesDirs(fs, fullWalk, sizes);
    files := paks + natives;
  }

  // ---------------------------------------------------------------------------
  // scan_for_skin_mods
  // ---------------------------------------------------------------------------

  /**
   * What inspecting one folder of `fossmodmanager/mods` yields: its walk three
   * levels deep, its full walk, and the `modinfo.ini` contents and screenshot
   * found in it.
   */
  datatype FolderScan = FolderScan(shallowWalk: seq<Path>, fullWalk: seq<Path>, info: ModInfo, screenshot: Option<string>)

  /** What a scan returns, and the registry it saves when it gets that far. */
  datatype ScanResult = ScanResult(mods: seq<SkinExtract.SkinMod>, saved: Option<SkinExtract.SkinRegistry>)

  /** Something in the three-level walk marks the folder as a skin mod: a `natives` directory or a pak file. */
  predicate HasPayload(fs: FileSystem, walk: seq<Path>)
  {
    (exists i :: 0 <= i < |walk| && IsNativesDir(fs, walk[i])) || (exists i :: 0 <= i < |walk| && IsPak(fs, walk[i]))
  }

  /** The registry entry a newly found mod folder gets. */
  function NewSkinMod(fs: FileSystem, p: Path, scan: FolderScan, sizes: map<Path, nat>, now: int): SkinExtract.SkinMod
  {
    SkinExtract.SkinMod(
      name := match scan.info.name case Some(n) => n case None => ExtractModNameFromFolder(FolderName(p)),
      path := Render(p),
      enabled := false,
      thumbnailPath := scan.screenshot,
      author := scan.info.author,
      version := scan.info.version,
      description := scan.info.description,
      files := IndexedFiles(fs, scan.shallowWalk, scan.fullWalk, sizes),
      installedTimestamp := now)
  }

  /** What one entry of the walk of the mods directory contributes to the scan. */
  function ScanEntry(fs: FileSystem, modsDir: Path, existing: map<string, SkinExtract.SkinMod>, p: Path,
                     inspect: Path -> FolderScan, sizes: map<Path, nat>, now: int): seq<SkinExtract.SkinMod>
  {
    if p == modsDir || !IsDir(fs, p) then []
    else if Render(p) in existing then [existing[Render(p)]]
    else if !HasPayload(fs, inspect(p).shallowWalk) then []
    else [NewSkinMod(fs, p, inspect(p), sizes, now)]
  }

  /** The scanned list: the contributions of the walk's entries, in walk order. */
  function ScannedMods(fs: FileSystem, modsDir: Path, existing: map<string, SkinExtract.SkinMod>, walk: seq<Path>,
                       inspect: Path -> FolderScan, sizes: map<Path, nat>, now: int): seq<SkinExtract.SkinMod>
  {
    if walk == [] then []
    else
      var n := |walk|;
      ScannedMods(fs, modsDir, existing, walk[..n - 1], inspect, sizes, now)
        + ScanEntry(fs, modsDir, existing, walk[n - 1], inspect, sizes, now)
  }

  /**
   * The whole of `scan_for_skin_mods`: `walk` is the one-level walk of the mods
   * directory, `inspect` what inspecting each folder yields.
   */
  function ScanOutcome(fs: FileSystem, gameRootPath: string, stored: SkinExtract.StoredRegistry, walk: seq<Path>,
                       inspect: Path -> FolderScan, sizes: map<Path, nat>, now: int)
    : Result<ScanResult, SkinExtract.SkinError>
  {
    var root := Parse(gameRootPath);
    var modsDir := ModsDirOf(root);
    if !IsDir(fs, root) then Err(SkinExtract.InvalidGameRoot(gameRootPath))
    else if !IsDir(fs, modsDir) then Ok(ScanResult([], None))
    else match SkinExtract.LoadRegistry(stored)
      case Err(e) => Err(e)
      case Ok(registry) =>
        var mods := ScannedMods(fs, modsDir, ByKey(registry.installedMods, SkinExtract.PathOf), walk, inspect, sizes, now);
        Ok(ScanResult(mods, Some(SkinExtract.SkinRegistry(mods, now))))
  }

  /**
   * `m` is what the walked folder `p` contributes: the registry's entry for its
   * path, returned as it was, or, for a qualifying folder the registry does not
   * hold, a new entry.
   */
  predicate ScannedFrom(fs: FileSystem, modsDir: Path, existing: map<string, SkinExtract.SkinMod>,
                        inspect: Path -> FolderScan, sizes: map<Path, nat>, now: int, p: Path, m: SkinExtract.SkinMod)
  {
    && p != modsDir && IsDir(fs, p) && m.path == Render(p)
    && if Render(p) in existing then m == existing[Render(p)]
       else HasPayload(fs, inspect(p).shallowWalk) && m == NewSkinMod(fs, p, inspect(p), sizes, now)
  }

  /** Every scanned entry comes from a folder of the walk: the old entry for it, or a new one. */
  lemma {:induction false} ScannedModsSound(fs: FileSystem, modsDir: Path, existing: map<string, SkinExtract.SkinMod>,
                                            walk: seq<Path>, inspect: Path -> FolderScan, sizes: map<Path, nat>, now: int)
    requires FiledByKey(existing, SkinExtract.PathOf)
    ensures forall m :: m in ScannedMods(fs, modsDir, existing, walk, inspect, sizes, now) ==>
              exists p :: p in walk && ScannedFrom(fs, modsDir, existing, inspect, sizes, now, p, m)
  {
    if walk != [] {
      var n := |walk|;
      var p := walk[n - 1];
      var prev := ScannedMods(fs, modsDir, existing, walk[..n - 1], inspect, sizes, now);
      var entry := ScanEntry(fs, modsDir, existing, p, inspect, sizes, now);
      ScannedModsSound(fs, modsDir, existing, walk[..n - 1], inspect, sizes, now);
      assert ScannedMods(fs, modsDir, existing, walk, inspect, sizes, now) == prev + entry;
      forall m | m in prev + entry
        ensures exists q :: q in walk && ScannedFrom(fs, modsDir, existing, inspect, sizes, now, q, m)
      {
        if m in prev {
          var q :| q in walk[..n - 1] && ScannedFrom(fs, modsDir, existing, inspect, sizes, now, q, m);
          assert q in walk;
        } else {
          assert m == entry[0];
          if Render(p) in existing {
            assert SkinExtract.PathOf(existing[Render(p)]) == Render(p);
          }
          assert ScannedFrom(fs, modsDir, existing, inspect, sizes, now, p, m);
        }
      }
    }
  }

  /** A folder the registry holds or that qualifies contributes exactly one entry, filed under its path. */
  lemma ScanEntryCovers(fs: FileSystem, modsDir: Path, existing: map<string, SkinExtract.SkinMod>, p: Path,
                        inspect: Path -> FolderScan, sizes: map<Path, nat>, now: int)
    requires FiledByKey(existing, SkinExtract.PathOf)
    requires p != modsDir && IsDir(fs, p) && (Render(p) in existing || HasPayload(fs, inspect(p).shallowWalk))
    ensures var entry := ScanEntry(fs, modsDir, existing, p, inspect, sizes, now);
      |entry| == 1 && entry[0].path == Render(p)
  {
    if Render(p) in existing {
      assert SkinExtract.PathOf(existing[Render(p)]) == Render(p);
    }
  }

  /** A folder the scan must list: a directory below the mods directory that the registry holds or that qualifies. */
  predicate MustList(fs: FileSystem, modsDir: Path, existing: map<string, SkinExtract.SkinMod>,
                     inspect: Path -> FolderScan, p: Path)
  {
    p != modsDir && IsDir(fs, p) && (Render(p) in existing || HasPayload(fs, inspect(p).shallowWalk))
  }

  /** Some entry of `ms` is for the folder `p`. */
  predicate Lists(ms: seq<SkinExtract.SkinMod>, p: Path)
  {
    exists m :: m in ms && m.path == Render(p)
  }

  /** Every folder of the walk that the registry holds or that qualifies is in the scanned list. */
  lemma {:induction false} ScannedModsComplete(fs: FileSystem, modsDir: Path, existing: map<string, SkinExtract.SkinMod>,
                                               walk: seq<Path>, inspect: Path -> FolderScan, sizes: map<Path, nat>, now: int)
    requires FiledByKey(existing, SkinExtract.PathOf)
    ensures forall p :: p in walk && MustList(fs, modsDir, existing, inspect, p) ==>
              Lists(ScannedMods(fs, modsDir, existing, walk, inspect, sizes, now), p)
  {
    if walk != [] {
      var n := |walk|;
      var last := walk[n - 1];
      var prev := ScannedMods(fs, modsDir, existing, walk[..n - 1], inspect, sizes, now);
      var entry := ScanEntry(fs, modsDir, existing, last, inspect, sizes, now);
      var all := ScannedMods(fs, modsDir, existing, walk, inspect, sizes, now);
      assert all == prev + entry;
      ScannedModsComplete(fs, modsDir, existing, walk[..n - 1], inspect, sizes, now);
      forall p | p in walk && MustList(fs, modsDir, existing, inspect, p)
        ensures Lists(all, p)
      {
        if p == last {
          ScanEntryCovers(fs, modsDir, existing, p, inspect, sizes, now);
          assert entry[0] in all;
        } else {
          assert p in walk[..n - 1];
          var m :| m in prev && m.path == Render(p);
          assert m in all;
        }
      }
    }
  }

  /**
   * The merge as the scan performs it: every returned entry is for a folder of
   * the walk, and is the registry's entry as it was or a new entry for a
   * qualifying folder the registry does not hold, so the old entries of folders
   * no longer there are dropped. Every folder the registry holds or that
   * qualifies is returned.
   */
  lemma ScanMerge(fs: FileSystem, gameRootPath: string, stored: SkinExtract.StoredRegistry, walk: seq<Path>,
                  inspect: Path -> FolderScan, sizes: map<Path, nat>, now: int)
    requires ScanOutcome(fs, gameRootPath, stored, walk, inspect, sizes, now).Ok?
    requires ScanOutcome(fs, gameRootPath, stored, walk, inspect, sizes, now).value.saved.Some?
    ensures var registry := SkinExtract.LoadRegistry(stored).value.installedMods;
      var modsDir := ModsDirOf(Parse(gameRootPath));
      var mods := ScanOutcome(fs, gameRootPath, stored, walk, inspect, sizes, now).value.mods;
      && (forall m :: m in mods ==>
            exists p :: p in walk && p != modsDir && IsDir(fs, p) && m.path == Render(p)
                        && ((HasKey(registry, SkinExtract.PathOf, Render(p)) && m in registry)
                            || (!HasKey(registry, SkinExtract.PathOf, Render(p)) && HasPayload(fs, inspect(p).shallowWalk)
                                && m == NewSkinMod(fs, p, inspect(p), sizes, now))))
      && (forall p :: p in walk && p != modsDir && IsDir(fs, p)
                      && (HasKey(registry, SkinExtract.PathOf, Render(p)) || HasPayload(fs, inspect(p).shallowWalk)) ==>
            exists m :: m in mods && m.path == Render(p))
  {
    var registry := SkinExtract.LoadRegistry(stored).value.installedMods;
    var existing := ByKey(registry, SkinExtract.PathOf);
    var modsDir := ModsDirOf(Parse(gameRootPath));
    ByKeyIsLast(registry, SkinExtract.PathOf, "");
    ScannedModsSound(fs, modsDir, existing, walk, inspect, sizes, now);
    ScannedModsComplete(fs, modsDir, existing, walk, inspect, sizes, now);
    forall key: string
      ensures key in existing <==> HasKey(registry, SkinExtract.PathOf, key)
      ensures key in existing ==> existing[key] in registry
    {
      ByKeyIsLast(registry, SkinExtract.PathOf, key);
    }
  }

  /** A new entry starts switched off, with every indexed file switched off, stamped with the scan time. */
  lemma NewSkinModStartsOff(fs: FileSystem, p: Path, scan: FolderScan, sizes: map<Path, nat>, now: int)
    ensures var m := NewSkinMod(fs, p, scan, sizes, now);
      && !m.enabled && m.path == Render(p) && m.installedTimestamp == now
      && (scan.info.name.Some? ==> m.name == scan.info.name.value)
      && (scan.info.name.None? ==> m.name == ExtractModNameFromFolder(FolderName(p)))
      && forall f :: f in m.files ==> !f.enabled && f.fileType != Other
  {
    IndexedFilesStartOff(fs, scan.shallowWalk, scan.fullWalk, sizes);
  }

  /**
   * The scan's error and early-exit paths, and what a full scan saves: the
   * registry's list replaced by the scanned list, stamped with the scan time.
   */
  lemma ScanOutcomeCases(fs: FileSystem, gameRootPath: string, stored: SkinExtract.StoredRegistry, walk: seq<Path>,
                         inspect: Path -> FolderScan, sizes: map<Path, nat>, now: int)
    ensures var r := ScanOutcome(fs, gameRootPath, stored, walk, inspect, sizes, now);
      && (!IsDir(fs, Parse(gameRootPath)) ==> r == Err(SkinExtract.InvalidGameRoot(gameRootPath)))
      && (IsDir(fs, Parse(gameRootPath)) && !IsDir(fs, ModsDirOf(Parse(gameRootPath))) ==> r == Ok(ScanResult([], None)))
      && (IsDir(fs, Parse(gameRootPath)) && IsDir(fs, ModsDirOf(Parse(gameRootPath))) ==>
            (r.Err? <==> SkinExtract.LoadRegistry(stored).Err?))
      && (r.Ok? && r.value.saved.Some? ==> r.value.saved.value == SkinExtract.SkinRegistry(r.value.mods, now))
  {
  }

  /** The two `any` checks of the scan: a `natives` directory, then a pak file, in the three-level walk. */
  method CheckPayload(fs: FileSystem, walk: seq<Path>) returns (qualifies: bool)
    ensures qualifies == HasPayload(fs, walk)
  {
    var hasNativesFolder := false;
    var i := 0;
    while i < |walk| && !hasNativesFolder
      invariant 0 <= i <= |walk|
      invariant hasNativesFolder <==> exists k :: 0 <= k < i && IsNativesDir(fs, walk[k])
    {
      hasNativesFolder := IsNativesDir(fs, walk[i]);
      i := i + 1;
    }
    var hasPakFiles := false;
    i := 0;
    while i < |walk| && !hasPakFiles
      invariant 0 <= i <= |walk|
      invariant hasPakFiles <==> exists k :: 0 <= k < i && IsPak(fs, walk[k])
    {
      hasPakFiles := IsFile(fs, walk[i]) && HasExtension(walk[i], "pak");
      i := i + 1;
    }
    qualifies := hasNativesFolder || hasPakFiles;
  }

  /** One pass of the scan loop: what the folder at `path` adds to the list. */
  method ScanFolder(fs: FileSystem, modsDir: Path, existingMods: map<string, SkinExtract.SkinMod>, path: Path,
                    inspect: Path -> FolderScan, sizes: map<Path, nat>, now: int)
    returns (added: seq<SkinExtract.SkinMod>)
    ensures added == ScanEntry(fs, modsDir, existingMods, path, inspect, sizes, now)
  {
    if path == modsDir || !IsDir(fs, path) {
      return [];
    }
    var modPath := Render(path);
    if modPath in existingMods {
      return [existingMods[modPath]];
    }
    var scan := inspect(path);
    var qualifies := CheckPayload(fs, scan.shallowWalk);
    if !qualifies {
      return [];
    }
    var displayName := ExtractModNameFromFolder(FolderName(path));
    var modFiles := IndexModFiles(fs, scan.shallowWalk, scan.fullWalk, sizes);
    var skinMod := SkinExtract.SkinMod(
      name := if scan.info.name.Some? then scan.info.name.value else displayName,
      path := modPath,
      enabled := false,
      thumbnailPath := scan.screenshot,
      author := scan.info.author,
      version := scan.info.version,
      description := scan.info.description,
      files := modFiles,
      installedTimestamp := now);
    added := [skinMod];
  }

  /** The loop of the scan over the one-level walk of the mods directory. */
  method ScanFolders(fs: FileSystem, modsDir: Path, existingMods: map<string, SkinExtract.SkinMod>, walk: seq<Path>,
                     inspect: Path -> FolderScan, sizes: map<Path, nat>, now: int)
    returns (scannedMods: seq<SkinExtract.SkinMod>)
    ensures scannedMods == ScannedMods(fs, modsDir, existingMods, walk, inspect, sizes, now)
  {
    scannedMods := [];
    var i := 0;
    while i < |walk|
      invariant 0 <= i <= |walk|
      invariant scannedMods == ScannedMods(fs, modsDir, existingMods, walk[..i], inspect, sizes, now)
    {
      assert walk[..i + 1][..i] == walk[..i];
      var added := ScanFolder(fs, modsDir, existingMods, walk[i], inspect, sizes, now);
      scannedMods := scannedMods + added;
      i := i + 1;
    }
    assert walk[..i] == walk;
  }

  /** `scan_for_skin_mods`. */
  method ScanForSkinMods(fs: FileSystem, gameRootPath: string, stored: SkinExtract.StoredRegistry, walk: seq<Path>,
                         inspect: Path -> FolderScan, sizes: map<Path, nat>, now: int)
    returns (r: Result<ScanResult, SkinExtract.SkinError>)
    ensures r == ScanOutcome(fs, gameRootPath, stored, walk, inspect, sizes, now)
  {
    var gameRoot := Parse(gameRootPath);
    if !IsDir(fs, gameRoot) {
      return Err(SkinExtract.InvalidGameRoot(gameRootPath));
    }
    var modsDir := ModsDirOf(gameRoot);
    if !IsDir(fs, modsDir) {
      return Ok(ScanResult([], None));
    }
    var loaded := SkinExtract.LoadRegistry(stored);
    if loaded.Err? {
      return Err(loaded.error);
    }
    var registry := loaded.value;
    var existingMods := CollectByKey(registry.installedMods, SkinExtract.PathOf);
    var scannedMods := ScanFolders(fs, modsDir, existingMods, walk, inspect, sizes, now);
    r := Ok(ScanResult(scannedMods, Some(SkinExtract.SkinRegistry(scannedMods, now))));
  }
}
