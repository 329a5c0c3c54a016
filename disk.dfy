/**
 * The filesystem the mod manager works on, as a finite map from paths to entries.
 * `exists`, `is_file` and `is_dir` are lookups; `fs::rename`, `fs::copy`,
 * `fs::remove_file`, `fs::write` and `fs::create_dir_all` are map updates that
 * may fail. Paths in `readOnly` stand for whatever makes the operating system
 * refuse to change a path (permissions, locks): every change to one fails.
 */
module Disk {
  import opened Base
  import opened Paths

  datatype Entry = File(content: string) | Dir

  datatype FileSystem = FileSystem(entries: map<Path, Entry>, readOnly: set<Path>)

  datatype IoError = NotFound | IsADirectory | NotADirectory | PermissionDenied | DirectoryNotEmpty | InvalidInput

  predicate Exists(fs: FileSystem, p: Path)
  {
    p in fs.entries
  }

  predicate IsFile(fs: FileSystem, p: Path)
  {
    p in fs.entries && fs.entries[p].File?
  }

  predicate IsDir(fs: FileSystem, p: Path)
  {
    p in fs.entries && fs.entries[p].Dir?
  }

  /** A file with extension `pak`, in any case: the payload the game loads from its root. */
  predicate IsPak(fs: FileSystem, p: Path)
  {
    IsFile(fs, p) && HasExtension(p, "pak")
  }

  /** The same disk with `entries` replaced; the read-only set never changes. */
  function WithEntries(fs: FileSystem, entries: map<Path, Entry>): FileSystem
  {
    FileSystem(entries, fs.readOnly)
  }

  /** `fs::read_to_string`. */
  function ReadFile(fs: FileSystem, p: Path): (r: Result<string, IoError>)
    ensures r.Ok? <==> IsFile(fs, p)
    ensures r.Ok? ==> fs.entries[p] == File(r.value)
  {
    if p !in fs.entries then Err(NotFound)
    else match fs.entries[p]
      case Dir => Err(IsADirectory)
      case File(c) => Ok(c)
  }

  /** `fs::rename(from, to)`: the entry at `from` moves to `to`, replacing a file there. */
  function Rename(fs: FileSystem, from: Path, to: Path): (r: Result<FileSystem, IoError>)
    ensures r.Ok? <==> Exists(fs, from) && from !in fs.readOnly && to !in fs.readOnly && !IsDir(fs, to)
    ensures r.Ok? ==> r.value.readOnly == fs.readOnly
    ensures r.Ok? ==> to in r.value.entries && r.value.entries[to] == fs.entries[from]
    ensures r.Ok? && from != to ==> from !in r.value.entries
    ensures r.Ok? ==> forall q :: q != from && q != to ==>
              (q in r.value.entries <==> q in fs.entries)
              && (q in fs.entries ==> r.value.entries[q] == fs.entries[q])
  {
    if from !in fs.entries then Err(NotFound)
    else if from in fs.readOnly || to in fs.readOnly then Err(PermissionDenied)
    else if IsDir(fs, to) then Err(IsADirectory)
    else Ok(WithEntries(fs, (fs.entries - {from})[to := fs.entries[from]]))
  }

  /**
   * `fs::rename(from, to)` of a directory: `from` and everything below it move to
   * the same places below `to`. `to` may be missing or an empty directory; a
   * directory cannot be moved into itself.
   */
  function RenameDir(fs: FileSystem, from: Path, to: Path): (r: Result<FileSystem, IoError>)
    ensures r.Ok? <==>
              && IsDir(fs, from) && from !in fs.readOnly && to !in fs.readOnly
              && !IsAncestorOrSelf(from, to) && !IsFile(fs, to)
              && (forall q :: q in fs.entries ==> !IsProperAncestor(to, q))
    ensures r.Ok? ==> r.value.readOnly == fs.readOnly
    ensures r.Ok? ==> forall q :: IsAncestorOrSelf(to, q) ==>
              (q in r.value.entries <==> Rebase(q, to, from) in fs.entries)
              && (q in r.value.entries ==> r.value.entries[q] == fs.entries[Rebase(q, to, from)])
    ensures r.Ok? ==> forall q :: !IsAncestorOrSelf(to, q) ==>
              (q in r.value.entries <==> q in fs.entries && !IsAncestorOrSelf(from, q))
              && (q in r.value.entries ==> r.value.entries[q] == fs.entries[q])
  {
    if from !in fs.entries then Err(NotFound)
    else if fs.entries[from].File? then Err(NotADirectory)
    else if from in fs.readOnly || to in fs.readOnly then Err(PermissionDenied)
    else if IsAncestorOrSelf(from, to) then Err(InvalidInput)
    else if IsFile(fs, to) then Err(NotADirectory)
    else if exists q :: q in fs.entries && IsProperAncestor(to, q) then Err(DirectoryNotEmpty)
    else
      RenameDirEffect(fs, from, to);
      Ok(WithEntries(fs, Kept(fs, from, to) + Moved(fs, from, to)))
  }

  /** The entries a directory move leaves where they are. */
  function Kept(fs: FileSystem, from: Path, to: Path): map<Path, Entry>
  {
    map q | q in fs.entries && !IsAncestorOrSelf(from, q) && !IsAncestorOrSelf(to, q) :: fs.entries[q]
  }

  /** The entries a directory move carries from below `from` to below `to`. */
  function Moved(fs: FileSystem, from: Path, to: Path): map<Path, Entry>
  {
    RebaseInjective(from, to);
    map q | q in fs.entries && IsAncestorOrSelf(from, q) :: Rebase(q, from, to) := fs.entries[q]
  }

  lemma RebaseInjective(from: Path, to: Path)
    ensures forall p, q :: IsAncestorOrSelf(from, p) && IsAncestorOrSelf(from, q) && Rebase(p, from, to) == Rebase(q, from, to) ==> p == q
  {
    forall p, q | IsAncestorOrSelf(from, p) && IsAncestorOrSelf(from, q) && Rebase(p, from, to) == Rebase(q, from, to)
      ensures p == q
    {
      RebaseBack(p, from, to);
      RebaseBack(q, from, to);
    }
  }

  lemma RenameDirEffect(fs: FileSystem, from: Path, to: Path)
    ensures var m := Kept(fs, from, to) + Moved(fs, from, to);
      forall q :: IsAncestorOrSelf(to, q) ==>
        (q in m <==> Rebase(q, to, from) in fs.entries)
        && (q in m ==> m[q] == fs.entries[Rebase(q, to, from)])
    ensures var m := Kept(fs, from, to) + Moved(fs, from, to);
      forall q :: !IsAncestorOrSelf(to, q) ==>
        (q in m <==> q in fs.entries && !IsAncestorOrSelf(from, q))
        && (q in m ==> m[q] == fs.entries[q])
  {
    var kept, moved := Kept(fs, from, to), Moved(fs, from, to);
    RebaseInjective(from, to);
    forall q | IsAncestorOrSelf(to, q)
      ensures q in kept + moved <==> Rebase(q, to, from) in fs.entries
      ensures q in kept + moved ==> (kept + moved)[q] == fs.entries[Rebase(q, to, from)]
    {
      var p := Rebase(q, to, from);
      RebaseBack(q, to, from);
      assert Rebase(p, from, to) == q;
      if p in fs.entries {
        assert q in moved && moved[q] == fs.entries[p];
      }
      if q in moved {
        var p' :| p' in fs.entries && IsAncestorOrSelf(from, p') && Rebase(p', from, to) == q;
        RebaseBack(p', from, to);
      }
    }
  }

  /** `fs::copy(from, to)`: `to` becomes a file holding what the file `from` holds. */
  function Copy(fs: FileSystem, from: Path, to: Path): (r: Result<FileSystem, IoError>)
    ensures r.Ok? <==> IsFile(fs, from) && to !in fs.readOnly && !IsDir(fs, to)
    ensures r.Ok? ==> r.value.readOnly == fs.readOnly
    ensures r.Ok? ==> r.value.entries == fs.entries[to := fs.entries[from]]
  {
    if from !in fs.entries then Err(NotFound)
    else if fs.entries[from].Dir? then Err(IsADirectory)
    else if to in fs.readOnly then Err(PermissionDenied)
    else if IsDir(fs, to) then Err(IsADirectory)
    else Ok(WithEntries(fs, fs.entries[to := fs.entries[from]]))
  }

  /** `fs::remove_file(p)`: only a file can be removed this way. */
  function RemoveFile(fs: FileSystem, p: Path): (r: Result<FileSystem, IoError>)
    ensures r.Ok? <==> IsFile(fs, p) && p !in fs.readOnly
    ensures r.Err? && !Exists(fs, p) ==> r.error == NotFound
    ensures r.Ok? ==> r.value == WithEntries(fs, fs.entries - {p})
  {
    if p !in fs.entries then Err(NotFound)
    else if fs.entries[p].Dir? then Err(IsADirectory)
    else if p in fs.readOnly then Err(PermissionDenied)
    else Ok(WithEntries(fs, fs.entries - {p}))
  }

  /** `fs::write(p, content)`: creates or truncates the file `p`. */
  function WriteFile(fs: FileSystem, p: Path, content: string): (r: Result<FileSystem, IoError>)
    ensures r.Ok? <==> p !in fs.readOnly && !IsDir(fs, p)
    ensures r.Ok? ==> r.value == WithEntries(fs, fs.entries[p := File(content)])
  {
    if p in fs.readOnly then Err(PermissionDenied)
    else if IsDir(fs, p) then Err(IsADirectory)
    else Ok(WithEntries(fs, fs.entries[p := File(content)]))
  }

  /** `p` and every ancestor of `p` (the root excluded). */
  function AncestorsAndSelf(p: Path): set<Path>
  {
    set i | 1 <= i <= |p.parts| :: Path(p.absolute, p.parts[..i])
  }

  /** `fs::create_dir_all(p)`: every missing directory on the way to `p` is created. */
  function CreateDirAll(fs: FileSystem, p: Path): (r: Result<FileSystem, IoError>)
    ensures r.Ok? ==> r.value.readOnly == fs.readOnly
    ensures r.Ok? && p.parts != [] ==> IsDir(r.value, p)
    ensures r.Ok? ==> forall q :: q in fs.entries ==> q in r.value.entries && r.value.entries[q] == fs.entries[q]
    ensures r.Ok? ==> forall q :: q in r.value.entries && q !in fs.entries ==>
              r.value.entries[q] == Dir && q in AncestorsAndSelf(p)
  {
    var missing := set q | q in AncestorsAndSelf(p) && q !in fs.entries;
    if exists q :: q in AncestorsAndSelf(p) && IsFile(fs, q) then Err(NotADirectory)
    else if exists q :: q in missing && q in fs.readOnly then Err(PermissionDenied)
    else
      assert p.parts != [] ==> p == Path(p.absolute, p.parts[..|p.parts|]) && p in AncestorsAndSelf(p);
      Ok(WithEntries(fs, fs.entries + map q | q in missing :: Dir))
  }
}
