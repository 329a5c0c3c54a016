/**
 * Mod folders and the display names derived from their names. modregistry.rs
 * and skinextract.rs carry the same `extract_mod_name_from_folder`;
 * skinmanager.rs carries a shorter one without the `.pak`/`chunk` rule.
 */
module FolderNames {
  import opened Base
  import opened Strings
  import opened Paths

  /** `game_root.join("fossmodmanager").join("mods")`: where skin mods are unpacked. */
  function ModsDirOf(root: Path): Path
  {
    Path(root.absolute, root.parts + ["fossmodmanager", "mods"])
  }

  /** `path.file_name().and_then(|n| n.to_str()).unwrap_or("Unknown")`. */
  function FolderName(p: Path): string
  {
    match FileName(p)
    case Some(n) => n
    case None => "Unknown"
  }

  /** The characters a folder name is cut at. */
  predicate IsDelimiter(c: char)
  {
    c == '_' || c == '-' || c == ' ' || c == '!' || c == '#' || c == '$' || c == '.' || c == '(' || c == '['
  }

  /** The name looks like a pak payload: it ends in `.pak` (any case) or mentions `chunk`. */
  predicate LooksLikePak(folder: string)
  {
    EndsWith(ToLower(folder), ".pak") || Contains(folder, "chunk")
  }

  /**
   * `extract_mod_name_from_folder` of modregistry.rs and skinextract.rs: the
   * name is a leading part of the folder name, or the placeholder "Custom Skin"
   * for a pak-like name whose `chunk` comes first.
   */
  function ExtractModNameFromFolder(folder: string): (r: string)
    ensures (|r| <= |folder| && r == folder[..|r|]) || (r == "Custom Skin" && LooksLikePak(folder))
  {
    var delimiter := FindChar(folder, IsDelimiter);
    if delimiter.Some? && delimiter.value > 0 then folder[..delimiter.value]
    else if LooksLikePak(folder) then
      var chunk := Find(folder, "chunk");
      if chunk.Some? && chunk.value > 0 then NameBeforeChunk(folder, chunk.value)
      else "Custom Skin"
    else folder
  }

  /** The text before `chunk` at `k`, without trailing `_` and then trailing `-`. */
  function NameBeforeChunk(folder: string, k: nat): (r: string)
    requires k <= |folder|
    ensures |r| <= k && r == folder[..|r|]
  {
    var cut := folder[..k];
    var trimmed := TrimEndMatches(cut, '_');
    var name := TrimEndMatches(trimmed, '-');
    assert name == cut[..|name|] by {
      assert trimmed[..|name|] == cut[..|trimmed|][..|name|];
    }
    assert cut[..|name|] == folder[..|name|];
    name
  }

  /**
   * `extract_mod_name_from_folder` of skinmanager.rs: a non-empty leading part
   * of a non-empty folder name, free of delimiters when it was cut short.
   */
  function ExtractModNameSimple(folder: string): (r: string)
    ensures |r| <= |folder| && r == folder[..|r|]
    ensures folder != [] ==> r != []
    ensures |r| < |folder| ==> IsDelimiter(folder[|r|]) && forall j :: 0 <= j < |r| ==> !IsDelimiter(r[j])
  {
    var delimiter := FindChar(folder, IsDelimiter);
    if delimiter.Some? && delimiter.value > 0 then folder[..delimiter.value] else folder
  }

  /**
   * A delimiter after a first character that is not one cuts the name there,
   * leaving a non-empty name free of delimiters.
   */
  lemma ExtractCutsAtFirstDelimiter(folder: string, k: nat)
    requires 0 < k < |folder| && IsDelimiter(folder[k]) && !IsDelimiter(folder[0])
    requires forall j :: 0 < j < k ==> !IsDelimiter(folder[j])
    ensures var r := ExtractModNameFromFolder(folder);
      r == folder[..k] && r != [] && forall j :: 0 <= j < |r| ==> !IsDelimiter(r[j])
  {
  }

  /**
   * A name without any delimiter is kept, unless it mentions `chunk`: then the
   * text before `chunk` is the name, or "Custom Skin" when `chunk` leads.
   */
  lemma ExtractWithoutDelimiter(folder: string)
    requires forall j :: 0 <= j < |folder| ==> !IsDelimiter(folder[j])
    ensures var r := ExtractModNameFromFolder(folder);
      if !Contains(folder, "chunk") then r == folder
      else if Find(folder, "chunk").value > 0 then r == folder[..Find(folder, "chunk").value]
      else r == "Custom Skin"
  {
    assert FindChar(folder, IsDelimiter).None?;
    // without a '.' the name cannot end in ".pak", so only "chunk" can make it pak-like
    if |folder| >= 4 {
      assert ToLower(folder)[|folder| - 4] != '.';
      assert ToLower(folder)[|folder| - 4..][0] != '.';
    }
    assert !EndsWith(ToLower(folder), ".pak");
    var chunk := Find(folder, "chunk");
    if chunk.Some? && chunk.value > 0 {
      var head := folder[..chunk.value];
      assert forall j :: 0 <= j < |head| ==> !IsDelimiter(head[j]);
      assert TrimEndMatches(head, '_') == head;
      assert TrimEndMatches(head, '-') == head;
    }
  }

  /**
   * A name that is not cut at a delimiter (it has none, or its first character
   * is one) is kept unless it looks like a pak. A pak-like name gives the text
   * before `chunk` with trailing `_` and then trailing `-` removed, such as
   * `_mod` for `_mod_chunk_000`, or "Custom Skin" when there is no `chunk`
   * after the first character, such as for `-x.pak`.
   */
  lemma ExtractUncut(folder: string)
    requires folder == [] || IsDelimiter(folder[0]) || forall j :: 0 <= j < |folder| ==> !IsDelimiter(folder[j])
    ensures var r := ExtractModNameFromFolder(folder);
      var chunk := Find(folder, "chunk");
      if !LooksLikePak(folder) then r == folder
      else if chunk.Some? && chunk.value > 0 then
        r == TrimEndMatches(TrimEndMatches(folder[..chunk.value], '_'), '-')
      else r == "Custom Skin"
  {
    var delimiter := FindChar(folder, IsDelimiter);
    if delimiter.Some? {
      assert IsDelimiter(folder[0]);
      assert delimiter.value == 0;
    }
  }

  /** The name comes out empty only for a pak-like name that starts with a delimiter (such as `_chunk_000`). */
  lemma ExtractEmptyOnlyForLeadingDelimiter(folder: string)
    ensures ExtractModNameFromFolder(folder) == [] ==>
              folder == [] || (IsDelimiter(folder[0]) && LooksLikePak(folder))
  {
    if folder != [] && !IsDelimiter(folder[0]) {
      var delimiter := FindChar(folder, IsDelimiter);
      if delimiter.None? {
        ExtractWithoutDelimiter(folder);
      }
    }
  }

  /** The two variants agree except on names whose only delimiter leads and that look like paks. */
  lemma SimpleAgreesUnlessPak(folder: string)
    ensures !LooksLikePak(folder) ==> ExtractModNameSimple(folder) == ExtractModNameFromFolder(folder)
    ensures (exists k :: 0 < k < |folder| && IsDelimiter(folder[k])) && !IsDelimiter(folder[0]) ==>
              ExtractModNameSimple(folder) == ExtractModNameFromFolder(folder)
  {
  }
}
