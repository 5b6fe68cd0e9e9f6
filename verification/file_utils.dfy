/**
 * src/utils/file_utils.rs: the pure path and file-name helpers. A path
 * is its directory part and its last component, the file name, with
 * Rust's rule for splitting a file name into stem and extension at the
 * last '.'.
 */
module FileUtils {
  import opened Wrappers
  import opened RustChar

  /**
   * A path: the directory text (empty, or ending in '/') and the last
   * component, "" when the path has none (a root, or an empty path). A
   * trailing "." is normalised away by Rust's component parser, so the
   * last component is never "."; it may be "..", which is no file name.
   */
  datatype Path = Path(dir: string, name: string)

  /** `Path::file_name`: the last component, unless there is none or it is "..". */
  function FileName(p: Path): (r: Option<string>)
    ensures r.Some? <==> p.name != "" && p.name != ".."
    ensures r.Some? ==> r.value == p.name
  {
    if p.name == "" || p.name == ".." then None else Some(p.name)
  }

  /** The index of the last '.' in s. */
  function LastDot(s: string): (r: Option<nat>)
    ensures r.Some? ==> r.value < |s| && s[r.value] == '.' && forall j :: r.value < j < |s| ==> s[j] != '.'
    ensures r.None? ==> forall j :: 0 <= j < |s| ==> s[j] != '.'
    decreases |s|
  {
    if |s| == 0 then None
    else if s[|s| - 1] == '.' then Some(|s| - 1)
    else LastDot(s[..|s| - 1])
  }

  /**
   * `rsplit_file_at_dot`: the name before and after its last dot; ".."
   * and a name whose only dot leads it (".bashrc") have no extension,
   * and a name without a dot is all stem.
   */
  function SplitAtDot(name: string): (Option<string>, Option<string>) {
    if name == ".." then (Some(name), None)
    else match LastDot(name)
      case None => (None, Some(name))
      case Some(i) => if i == 0 then (Some(name), None) else (Some(name[..i]), Some(name[i + 1..]))
  }

  /** `Path::file_stem` */
  function Stem(p: Path): (r: Option<string>)
    ensures r.Some? <==> FileName(p).Some?
  {
    match FileName(p)
    case None => None
    case Some(name) => var (before, after) := SplitAtDot(name); before.OrElse(after)
  }

  /** `Path::extension` */
  function Extension(p: Path): (r: Option<string>)
    ensures r.Some? ==> FileName(p).Some?
    ensures FileName(p).Some? ==> (r.Some? <==> exists j :: 0 < j < |p.name| && p.name[j] == '.')
    ensures r.Some? ==> '.' !in r.value
  {
    match FileName(p)
    case None => None
    case Some(name) => var (before, after) := SplitAtDot(name); if before.Some? then after else None
  }

  /** The stem and the extension put back together give the file name. */
  lemma StemAndExtension(p: Path)
    requires FileName(p).Some?
    ensures Stem(p).Some? && |Stem(p).value| > 0
    ensures p.name == Stem(p).value + match Extension(p) case Some(e) => "." + e case None => ""
  {
    var n := p.name;
    match LastDot(n)
    case None =>
    case Some(i) =>
      if i > 0 {
        assert n == n[..i] + "." + n[i + 1..];
      }
  }

  /**
   * `Path::with_file_name`: the file name is replaced; a path without
   * one gets the name pushed, so after a ".." it becomes a new component.
   */
  function WithFileName(p: Path, name: string): (r: Path)
    ensures r.name == name
    ensures FileName(p).Some? || p.name == "" ==> r.dir == p.dir
    ensures p.name == ".." ==> r.dir == p.dir + "../"
  {
    if p.name == ".." then Path(p.dir + "../", name) else Path(p.dir, name)
  }

  /**
   * A path ending in ".." has no file name, stem or extension; giving it
   * an extension leaves it as it is, and a new file name is pushed after
   * the "..".
   */
  lemma ParentComponent(dir: string, ext: string, name: string)
    ensures var p := Path(dir, "..");
      && FileName(p).None? && Stem(p).None? && Extension(p).None?
      && WithExtension(p, ext) == p
      && WithFileName(p, name) == Path(dir + "../", name)
  {
  }

  /**
   * `Path::with_extension`: the path up to the end of the stem, then a
   * dot and the extension when it is non-empty; a path without a file
   * name is returned as it is.
   */
  function WithExtension(p: Path, ext: string): (r: Path)
    ensures r.dir == p.dir
    ensures FileName(p).None? ==> r == p
  {
    match Stem(p)
    case None => p
    case Some(stem) => Path(p.dir, stem + if ext == "" then "" else "." + ext)
  }

  /**
   * With an extension that is non-empty and free of dots the new name
   * keeps the stem and has exactly that extension.
   */
  lemma WithExtensionSets(p: Path, ext: string)
    requires FileName(p).Some?
    requires ext != "" && '.' !in ext
    ensures Stem(WithExtension(p, ext)) == Stem(p)
    ensures Extension(WithExtension(p, ext)) == Some(ext)
  {
    StemAndExtension(p);
    var stem := Stem(p).value;
    var n := stem + "." + ext;
    assert WithExtension(p, ext) == Path(p.dir, n);
    assert |n| >= 3;
    assert n[|stem|] == '.';
    assert forall j :: |stem| < j < |n| ==> n[j] == ext[j - |stem| - 1];
    assert LastDot(n) == Some(|stem|) by {
      LastDotIs(n, |stem|);
    }
    assert n[..|stem|] == stem && n[|stem| + 1..] == ext;
    assert n != "..";
    assert SplitAtDot(n) == (Some(stem), Some(ext));
  }

  lemma LastDotIs(s: string, i: nat)
    requires i < |s| && s[i] == '.' && forall j :: i < j < |s| ==> s[j] != '.'
    ensures LastDot(s) == Some(i)
  {
    match LastDot(s)
    case None =>
    case Some(k) =>
  }

  /** With an empty extension the name is cut back to its stem, which then has no extension. */
  lemma WithEmptyExtension(p: Path)
    requires FileName(p).Some?
    ensures WithExtension(p, "") == Path(p.dir, Stem(p).value)
  {
  }

  /**
   * `add_prefix_to_filename`: the file name (empty when there is none)
   * with the prefix in front, then the extension replaced when one is
   * given.
   */
  function AddPrefixToFilename(p: Path, prefix: string, ext: Option<string>): (r: Path)
    ensures r.dir == WithFileName(p, prefix).dir
    ensures ext.None? && FileName(p).Some? ==> r == Path(p.dir, prefix + p.name)
    ensures ext.None? && FileName(p).None? ==> r.name == prefix
  {
    var newName := prefix + FileName(p).GetOr("");
    var result := WithFileName(p, newName);
    match ext
    case None => result
    case Some(e) => WithExtension(result, e)
  }

  /** The prefixed name, minus the prefix, is the old name; with an extension given, the stem is that of the prefixed name. */
  lemma AddPrefixProperties(p: Path, prefix: string, ext: Option<string>)
    ensures var r := AddPrefixToFilename(p, prefix, None); var oldName := FileName(p).GetOr("");
      |prefix| <= |r.name| && r.name[..|prefix|] == prefix && r.name[|prefix|..] == oldName
    ensures var named := WithFileName(p, prefix + FileName(p).GetOr(""));
      ext.Some? && ext.value != "" && '.' !in ext.value && FileName(named).Some? ==>
      var r := AddPrefixToFilename(p, prefix, ext);
      r.dir == named.dir && Stem(r) == Stem(named) && Extension(r) == ext
  {
    var oldName := FileName(p).GetOr("");
    var r := AddPrefixToFilename(p, prefix, None);
    assert r.name[..|prefix|] == prefix && r.name[|prefix|..] == oldName;
    var named := WithFileName(p, prefix + oldName);
    if ext.Some? && ext.value != "" && '.' !in ext.value && FileName(named).Some? {
      WithExtensionSets(named, ext.value);
    }
  }

  /**
   * `append_extension`: the old extension (empty when there is none)
   * with `ext` written right after it, no dot between.
   */
  function AppendExtension(p: Path, ext: string): (r: Path)
    ensures r.dir == p.dir
  {
    var extension := Extension(p).GetOr("");
    WithExtension(p, extension + ext)
  }

  /**
   * When the combined extension is non-empty and free of dots the stem
   * stays and the extension becomes the old one followed by `ext`.
   */
  lemma AppendExtensionSets(p: Path, ext: string)
    requires FileName(p).Some?
    requires var e := Extension(p).GetOr("") + ext; e != "" && '.' !in e
    ensures Stem(AppendExtension(p, ext)) == Stem(p)
    ensures Extension(AppendExtension(p, ext)) == Some(Extension(p).GetOr("") + ext)
  {
    WithExtensionSets(p, Extension(p).GetOr("") + ext);
  }

  // ---------------------------------------------------------------------
  // sanitize_filename
  // ---------------------------------------------------------------------

  predicate AllowedInFilename(c: char) {
    IsAlphanumeric(c) || c == '_' || c == '-'
  }

  /** `sanitize_filename`: every character that is not allowed becomes '_'. */
  function SanitizeFilename(name: string): (r: string)
    ensures |r| == |name|
    ensures forall i :: 0 <= i < |r| ==> AllowedInFilename(r[i])
    ensures forall i :: 0 <= i < |r| ==> AllowedInFilename(name[i]) ==> r[i] == name[i]
    ensures forall i :: 0 <= i < |r| ==> !AllowedInFilename(name[i]) ==> r[i] == '_'
  {
    seq(|name|, i requires 0 <= i < |name| => if AllowedInFilename(name[i]) then name[i] else '_')
  }

  /** A name is left as it is exactly when all its characters are allowed. */
  lemma SanitizeFixedPoints(name: string)
    ensures SanitizeFilename(name) == name <==> forall i :: 0 <= i < |name| ==> AllowedInFilename(name[i])
  {
    if SanitizeFilename(name) == name {
      forall i | 0 <= i < |name|
        ensures AllowedInFilename(name[i])
      {
        assert SanitizeFilename(name)[i] == name[i];
      }
    }
  }

  lemma SanitizeFilenameIdempotent(name: string)
    ensures SanitizeFilename(SanitizeFilename(name)) == SanitizeFilename(name)
  {
    SanitizeFixedPoints(SanitizeFilename(name));
  }

  // ---------------------------------------------------------------------
  // get_file_path
  // ---------------------------------------------------------------------

  /** `Path::is_absolute` on Unix: the path starts at the root. */
  predicate IsAbsolute(p: Path) {
    |p.dir| > 0 && p.dir[0] == '/'
  }

  /**
   * `get_file_path`: no path gives none, an absolute one is kept, and a
   * relative one is joined to the working directory and made absolute
   * by `absolutize` (which may fail; the path is then kept).
   */
  function GetFilePath(wd: string, path: Option<Path>, absolutize: (string, Path) -> Option<Path>): (r: Option<Path>)
    ensures path.None? <==> r.None?
    ensures path.Some? && IsAbsolute(path.value) ==> r == path
    ensures path.Some? && !IsAbsolute(path.value) ==> r.value == absolutize(wd, path.value).GetOr(path.value)
  {
    match path
    case None => None
    case Some(p) => if !IsAbsolute(p) then Some(absolutize(wd, p).GetOr(p)) else Some(p)
  }
}
