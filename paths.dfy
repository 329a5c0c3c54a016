/**
 * Paths as Rust's `std::path` compares them: an optional root followed by normal
 * components. `PathBuf::from(string)` is `Parse` (with `SamePath` for the one
 * case where the leading `.` matters), `to_string_lossy` is `Render`,
 * `join`, `parent`, `file_name`, `extension`, `strip_prefix` and `with_extension`
 * are the functions of the same name below.
 */
module Paths {
  import opened Base
  import Strings

  datatype Path = Path(absolute: bool, parts: seq<string>)

  /** A normal component: not empty, not `.`, no separator. */
  predicate ValidPart(s: string)
  {
    s != "" && s != "." && '/' !in s
  }

  predicate WellFormed(p: Path)
  {
    forall i :: 0 <= i < |p.parts| ==> ValidPart(p.parts[i])
  }

  /** The pieces of `s` between `/` separators (empty pieces included). */
  function Split(s: string): (r: seq<string>)
    ensures |r| >= 1
    ensures forall i :: 0 <= i < |r| ==> '/' !in r[i]
  {
    if s == [] then [""]
    else
      var rest := Split(s[1..]);
      if s[0] == '/' then [""] + rest else [[s[0]] + rest[0]] + rest[1..]
  }

  /** Drops the empty and `.` pieces, as `Path::components` does. */
  function Normalize(pieces: seq<string>): (r: seq<string>)
    ensures forall i :: 0 <= i < |r| ==> r[i] in pieces && r[i] != "" && r[i] != "."
  {
    if pieces == [] then []
    else if pieces[0] == "" || pieces[0] == "." then Normalize(pieces[1..])
    else [pieces[0]] + Normalize(pieces[1..])
  }

  /**
   * `PathBuf::from(s)`, seen through its normal components. A leading `.` of a
   * relative path, which `Path::components` keeps as `CurDir`, is dropped here;
   * `LeadingCurDir` says whether it was there, and `SamePath` compares with it.
   */
  function Parse(s: string): Path
  {
    Path(|s| > 0 && s[0] == '/', Normalize(Split(s)))
  }

  /** `s` starts with a `.` component, which `Path::components` reports as `CurDir`. */
  predicate LeadingCurDir(s: string)
  {
    |s| >= 1 && s[0] == '.' && (|s| == 1 || s[1] == '/')
  }

  /** `PathBuf::from(a) == PathBuf::from(b)`: the same components, `CurDir` included. */
  predicate SamePath(a: string, b: string)
  {
    Parse(a) == Parse(b) && LeadingCurDir(a) == LeadingCurDir(b)
  }

  function JoinParts(parts: seq<string>): string
  {
    if |parts| == 0 then ""
    else if |parts| == 1 then parts[0]
    else parts[0] + "/" + JoinParts(parts[1..])
  }

  /**
   * The text of a path rebuilt from its components, separated by `/`. For the
   * paths the mod index builds (joined from components) this is their
   * `to_string_lossy()`; text with a trailing `/` or a `.` piece renders
   * without them.
   */
  function Render(p: Path): string
  {
    (if p.absolute then "/" else "") + JoinParts(p.parts)
  }

  /** `base.join(rel)`: an absolute `rel` replaces `base`. */
  function Join(base: Path, rel: Path): (r: Path)
    ensures rel.absolute ==> r == rel
    ensures !rel.absolute ==> r.absolute == base.absolute && r.parts == base.parts + rel.parts
  {
    if rel.absolute then rel else Path(base.absolute, base.parts + rel.parts)
  }

  /** `base.join(name)` for a single component given as a string. */
  function Child(base: Path, name: string): Path
  {
    Join(base, Parse(name))
  }

  /** `Path::parent`: `None` for the root and for the empty path. */
  function Parent(p: Path): (r: Option<Path>)
    ensures r.Some? ==> r.value.absolute == p.absolute && |r.value.parts| + 1 == |p.parts|
    ensures r.Some? ==> r.value.parts == p.parts[..|p.parts| - 1]
    ensures r.None? <==> p.parts == []
  {
    if p.parts == [] then None else Some(Path(p.absolute, p.parts[..|p.parts| - 1]))
  }

  /** `Path::file_name`: the last component, unless it is `..` or there is none. */
  function FileName(p: Path): (r: Option<string>)
    ensures r.Some? ==> p.parts != [] && r.value == p.parts[|p.parts| - 1]
  {
    if p.parts == [] || p.parts[|p.parts| - 1] == ".." then None
    else Some(p.parts[|p.parts| - 1])
  }

  /** Index of the last `.` of a file name, if any. */
  function LastDot(name: string): (r: Option<nat>)
    ensures r.Some? ==> r.value < |name| && name[r.value] == '.'
    ensures r.Some? ==> forall k :: r.value < k < |name| ==> name[k] != '.'
    ensures r.None? ==> '.' !in name
  {
    if name == [] then None
    else if name[|name| - 1] == '.' then Some(|name| - 1)
    else LastDot(name[..|name| - 1])
  }

  /** `Path::extension` of a file name: after the last `.`, unless that `.` starts the name. */
  function Extension(name: string): Option<string>
  {
    if name == ".." then None
    else match LastDot(name)
      case None => None
      case Some(i) => if i == 0 then None else Some(name[i + 1..])
  }

  /** `Path::file_stem` of a file name. */
  function FileStem(name: string): string
  {
    match LastDot(name)
    case None => name
    case Some(i) => if i == 0 || name == ".." then name else name[..i]
  }

  /** The extension of the path's file name, lower-cased, is `ext`. */
  predicate HasExtension(p: Path, ext: string)
    ensures HasExtension(p, ext) ==> FileName(p).Some?
  {
    match FileName(p)
    case None => false
    case Some(n) => match Extension(n)
      case None => false
      case Some(e) => Strings.ToLower(e) == ext
  }

  /** `Path::with_extension(ext)`: the file name's extension replaced (or added). */
  function WithExtension(p: Path, ext: string): (r: Path)
    ensures FileName(p).Some? ==> Parent(r) == Parent(p)
    ensures FileName(p).None? ==> r == p
  {
    match FileName(p)
    case None => p
    case Some(n) =>
      var stem := FileStem(n);
      Path(p.absolute, p.parts[..|p.parts| - 1] + [if ext == "" then stem else stem + "." + ext])
  }

  /** `format!("{}{}", p.to_string_lossy(), suffix)` read back as a path. */
  function WithSuffix(p: Path, suffix: string): Path
  {
    Parse(Render(p) + suffix)
  }

  /** `<p>.disabled`, the name a skin file is parked under while its mod is off. */
  function Disabled(p: Path): Path
  {
    WithSuffix(p, ".disabled")
  }

  /** `a` is an ancestor of `p` (and not `p` itself). */
  predicate IsProperAncestor(a: Path, p: Path)
  {
    a.absolute == p.absolute && |a.parts| < |p.parts| && a.parts == p.parts[..|a.parts|]
  }

  /** `a` is `p` itself or one of its ancestors. */
  predicate IsAncestorOrSelf(a: Path, p: Path)
  {
    a.absolute == p.absolute && |a.parts| <= |p.parts| && a.parts == p.parts[..|a.parts|]
  }

  /** `p`, which lies at or below `from`, moved to the same place below `to`. */
  function Rebase(p: Path, from: Path, to: Path): (r: Path)
    requires IsAncestorOrSelf(from, p)
    ensures IsAncestorOrSelf(to, r)
  {
    Path(to.absolute, to.parts + p.parts[|from.parts|..])
  }

  /** Moving back undoes a move. */
  lemma RebaseBack(p: Path, from: Path, to: Path)
    requires IsAncestorOrSelf(from, p)
    ensures Rebase(Rebase(p, from, to), to, from) == p
  {
    var q := Rebase(p, from, to);
    assert q.parts[|to.parts|..] == p.parts[|from.parts|..];
    assert from.parts + p.parts[|from.parts|..] == p.parts;
  }

  /** `p.strip_prefix(base)`: the components of `p` after those of `base`. */
  function StripPrefix(p: Path, base: Path): (r: Option<Path>)
    ensures r.Some? ==> Join(base, r.value) == p
    ensures r.None? <==> !(base.absolute == p.absolute && |base.parts| <= |p.parts|
                          && base.parts == p.parts[..|base.parts|])
  {
    if base.absolute == p.absolute && |base.parts| <= |p.parts| && base.parts == p.parts[..|base.parts|] then
      assert base.parts + p.parts[|base.parts|..] == p.parts;
      Some(Path(false, p.parts[|base.parts|..]))
    else None
  }

  // ---------------------------------------------------------------------------
  // Reading a rendered path back gives the same path.
  // ---------------------------------------------------------------------------

  lemma {:induction false} SplitNoSeparator(a: string)
    requires '/' !in a
    ensures Split(a) == [a]
  {
    if a != [] {
      SplitNoSeparator(a[1..]);
      assert [a[0]] + a[1..] == a;
    }
  }

  lemma {:induction false} SplitAfterPiece(a: string, t: string)
    requires '/' !in a
    ensures Split(a + "/" + t) == [a] + Split(t)
  {
    if a == [] {
      assert a + "/" + t == "/" + t;
      assert ("/" + t)[1..] == t;
    } else {
      assert (a + "/" + t)[1..] == a[1..] + "/" + t;
      SplitAfterPiece(a[1..], t);
      assert [a[0]] + a[1..] == a;
    }
  }

  lemma {:induction false} SplitJoinParts(parts: seq<string>)
    requires |parts| >= 1
    requires forall i :: 0 <= i < |parts| ==> '/' !in parts[i]
    ensures Split(JoinParts(parts)) == parts
  {
    if |parts| == 1 {
      SplitNoSeparator(parts[0]);
    } else {
      SplitJoinParts(parts[1..]);
      SplitAfterPiece(parts[0], JoinParts(parts[1..]));
      assert [parts[0]] + parts[1..] == parts;
    }
  }

  lemma {:induction false} NormalizeValid(parts: seq<string>)
    requires forall i :: 0 <= i < |parts| ==> ValidPart(parts[i])
    ensures Normalize(parts) == parts
  {
    if parts != [] {
      NormalizeValid(parts[1..]);
      assert [parts[0]] + parts[1..] == parts;
    }
  }

  /** `PathBuf::from(p.to_string_lossy())` has the same components as `p`. */
  lemma ParseRender(p: Path)
    requires WellFormed(p)
    ensures Parse(Render(p)) == p
  {
    var s := Render(p);
    if p.parts == [] {
      if p.absolute {
        assert s == "/";
        assert s[1..] == "";
        assert Split(s) == ["", ""];
        assert Normalize(["", ""]) == Normalize([""]) == Normalize([]) == [];
      }
    } else {
      SplitJoinParts(p.parts);
      NormalizeValid(p.parts);
      var j := JoinParts(p.parts);
      assert j != [] && j[0] != '/' by { FirstPieceLeads(p.parts); }
      if p.absolute {
        assert s == "/" + j;
        assert s[1..] == j;
        assert Split(s) == [""] + p.parts;
        assert Normalize([""] + p.parts) == Normalize(p.parts);
      } else {
        assert s == j;
      }
    }
  }

  lemma {:induction false} FirstPieceLeads(parts: seq<string>)
    requires |parts| >= 1 && ValidPart(parts[0])
    ensures JoinParts(parts) != [] && JoinParts(parts)[0] == parts[0][0]
  {
  }

  /** Appending a suffix to a rendered path extends its last component. */
  lemma WithSuffixExtendsLast(p: Path, suffix: string)
    requires WellFormed(p) && p.parts != []
    requires '/' !in suffix
    ensures WithSuffix(p, suffix)
         == Path(p.absolute, p.parts[..|p.parts| - 1] + [p.parts[|p.parts| - 1] + suffix])
  {
    var n := |p.parts|;
    var q := Path(p.absolute, p.parts[..n - 1] + [p.parts[n - 1] + suffix]);
    assert WellFormed(q);
    RenderExtendsLast(p.parts, suffix);
    assert Render(q) == Render(p) + suffix;
    ParseRender(q);
  }

  lemma {:induction false} RenderExtendsLast(parts: seq<string>, suffix: string)
    requires parts != []
    ensures JoinParts(parts[..|parts| - 1] + [parts[|parts| - 1] + suffix]) == JoinParts(parts) + suffix
  {
    var n := |parts|;
    if n > 1 {
      RenderExtendsLast(parts[1..], suffix);
      var q := parts[..n - 1] + [parts[n - 1] + suffix];
      assert q[1..] == parts[1..][..n - 2] + [parts[1..][n - 2] + suffix];
    }
  }

  /** A disabled path is never the path itself, and differs only in its last component. */
  lemma DisabledIsSibling(p: Path)
    requires WellFormed(p) && p.parts != []
    ensures Disabled(p) != p
    ensures Parent(Disabled(p)) == Parent(p)
  {
    WithSuffixExtendsLast(p, ".disabled");
    var n := |p.parts|;
    assert |p.parts[n - 1] + ".disabled"| > |p.parts[n - 1]|;
    assert Disabled(p).parts[n - 1] != p.parts[n - 1];
  }

  /** Every path read from a string is made of normal components. */
  lemma ParseWellFormed(s: string)
    ensures WellFormed(Parse(s))
  {
    var pieces := Split(s);
    var parts := Normalize(pieces);
    forall i | 0 <= i < |parts|
      ensures ValidPart(parts[i])
    {
      assert parts[i] in pieces;
    }
  }

  /** A path joined from two parsed strings is made of normal components. */
  lemma JoinParsedWellFormed(base: string, rel: string)
    ensures WellFormed(Join(Parse(base), Parse(rel)))
  {
    ParseWellFormed(base);
    ParseWellFormed(rel);
  }

  /** A single normal component, read with or without a leading `/`, is that one component. */
  lemma ParseSingle(t: string)
    requires ValidPart(t)
    ensures Parse(t).parts == [t] && Parse("/" + t).parts == [t]
  {
    SplitNoSeparator(t);
    NormalizeValid([t]);
    SplitAfterPiece("", t);
    assert "" + "/" + t == "/" + t;
    assert ["", t][1..] == [t];
  }

  /** The `.disabled` name of a path without components is the single component `.disabled`. */
  lemma DisabledOfRoot(absolute: bool)
    ensures Disabled(Path(absolute, [])) == Path(absolute, [".disabled"])
  {
    var t := ".disabled";
    assert ValidPart(t);
    ParseSingle(t);
    assert Render(Path(absolute, [])) + t == if absolute then "/" + t else t;
  }

  /** Two paths made of normal components with the same `.disabled` name are the same path. */
  lemma DisabledInjective(p: Path, q: Path)
    requires WellFormed(p) && WellFormed(q) && Disabled(p) == Disabled(q)
    ensures p == q
  {
    DisabledShape(p);
    DisabledShape(q);
    if p.parts != [] && q.parts != [] {
      ExtendLastInjective(p.parts, q.parts, ".disabled");
    }
  }

  /** Extending the last element of two non-empty sequences by the same suffix keeps them apart. */
  lemma ExtendLastInjective(ps: seq<string>, qs: seq<string>, suffix: string)
    requires ps != [] && qs != []
    requires ps[..|ps| - 1] + [ps[|ps| - 1] + suffix] == qs[..|qs| - 1] + [qs[|qs| - 1] + suffix]
    ensures ps == qs
  {
    var m, n := |ps|, |qs|;
    var a, b := ps[m - 1], qs[n - 1];
    var dp, dq := ps[..m - 1] + [a + suffix], qs[..n - 1] + [b + suffix];
    assert m == |dp| == |dq| == n;
    assert dp[m - 1] == a + suffix && dq[n - 1] == b + suffix;
    assert a == (a + suffix)[..|a|] == (b + suffix)[..|b|] == b;
    assert dp[..m - 1] == ps[..m - 1] && dq[..n - 1] == qs[..n - 1];
    assert ps == ps[..m - 1] + [a];
    assert qs == qs[..n - 1] + [b];
  }

  /** The `.disabled` name keeps the root and extends the last component, or is `.disabled` alone. */
  lemma DisabledShape(p: Path)
    requires WellFormed(p)
    ensures Disabled(p).absolute == p.absolute
    ensures p.parts == [] ==> Disabled(p).parts == [".disabled"]
    ensures p.parts != [] ==>
      Disabled(p).parts == p.parts[..|p.parts| - 1] + [p.parts[|p.parts| - 1] + ".disabled"]
      && Disabled(p).parts != [".disabled"]
  {
    if p.parts == [] {
      DisabledOfRoot(p.absolute);
    } else {
      WithSuffixExtendsLast(p, ".disabled");
      var n := |p.parts|;
      var d := Disabled(p).parts;
      assert d[n - 1] == p.parts[n - 1] + ".disabled";
      assert |d[n - 1]| > |".disabled"|;
      assert n == 1 ==> d[0] != ".disabled";
    }
  }

  /** Whatever the path, its `.disabled` name is another path. */
  lemma DisabledDiffers(p: Path)
    requires WellFormed(p)
    ensures Disabled(p) != p
  {
    if p.parts == [] {
      DisabledOfRoot(p.absolute);
    } else {
      DisabledIsSibling(p);
    }
  }
}
