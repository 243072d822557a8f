/**
 * The part of Rust's `std::path` that the program relies on. A path is the
 * sequence of its components, which is also how `PathBuf` compares paths for
 * equality. Paths inside a collection are relative to the collection root.
 */
module Paths {
  import opened Wrappers

  /** A path component: `Normal` names never hold a separator and are never "." or "..". */
  datatype Component = RootDir | CurDir | ParentDir | Normal(name: string)

  type Path = seq<Component>

  /** `Path::file_name`: the last component, when it is a normal name. */
  function FileName(p: Path): Option<string>
  {
    if |p| > 0 && p[|p| - 1].Normal? then Some(p[|p| - 1].name) else None
  }

  /** `file_name().unwrap_or_default()`. */
  function FileNameOrEmpty(p: Path): string
  {
    match FileName(p)
    case Some(n) => n
    case None => ""
  }

  /** `Path::parent`: everything but the last component; none for an empty path or a bare root. */
  function Parent(p: Path): Option<Path>
  {
    if |p| == 0 || (|p| == 1 && p[0].RootDir?) then None else Some(p[..|p| - 1])
  }

  /** The position of the last occurrence of `c` in `s`. */
  function LastIndexOf(s: string, c: char): (r: Option<nat>)
    ensures r.Some? ==> r.value < |s| && s[r.value] == c && c !in s[r.value + 1..]
    ensures r.None? ==> c !in s
  {
    if |s| == 0 then None
    else if s[|s| - 1] == c then Some(|s| - 1)
    else LastIndexOf(s[..|s| - 1], c)
  }

  /**
   * The extension part of a file name, as Rust splits it: the text after
   * the last '.', and nothing when there is no dot, when the only dot is the
   * leading one, or when the name is "..".
   */
  function NameExtension(name: string): Option<string>
  {
    if name == ".." then None
    else match LastIndexOf(name, '.')
      case None => None
      case Some(i) => if i == 0 then None else Some(name[i + 1..])
  }

  /** `Path::extension`. */
  function Extension(p: Path): Option<string>
  {
    match FileName(p)
    case None => None
    case Some(n) => NameExtension(n)
  }

  /** An extension is exactly a dot-free tail that follows a non-empty stem and a dot. */
  lemma ExtensionSplitsAtLastDot(name: string, ext: string)
    ensures NameExtension(name) == Some(ext) <==>
      name != ".." && '.' !in ext && exists stem :: stem != "" && name == stem + ['.'] + ext
  {
    if NameExtension(name) == Some(ext) {
      var i := LastIndexOf(name, '.').value;
      var stem := name[..i];
      assert name == stem + ['.'] + ext;
    }
    if name != ".." && '.' !in ext && exists stem :: stem != "" && name == stem + ['.'] + ext {
      var stem :| stem != "" && name == stem + ['.'] + ext;
      LastDotOfSplit(stem, ext);
    }
  }

  lemma LastDotOfSplit(stem: string, ext: string)
    requires '.' !in ext
    ensures LastIndexOf(stem + ['.'] + ext, '.') == Some(|stem|)
    decreases |ext|
  {
    var name := stem + ['.'] + ext;
    if ext == [] {
      assert name == stem + ['.'];
    } else {
      var last := ext[|ext| - 1];
      assert last in ext;
      var shorter := stem + ['.'] + ext[..|ext| - 1];
      assert name == shorter + [last];
      assert name[..|name| - 1] == shorter;
      LastDotOfSplit(stem, ext[..|ext| - 1]);
    }
  }

  /** `Path::strip_prefix`: the rest of `p` when `base` is a leading run of its components. */
  function StripPrefix(p: Path, base: Path): (r: Result<Path>)
    ensures r.Ok? <==> base <= p
    ensures r.Ok? ==> base + r.value == p
  {
    if base <= p then Ok(p[|base|..]) else Err("prefix not found")
  }

  function ComponentText(c: Component): string
  {
    match c
    case RootDir => ""
    case CurDir => "."
    case ParentDir => ".."
    case Normal(n) => n
  }

  /** `Path::display` of a relative path: its components joined by '/'. */
  function Display(p: Path): string
  {
    if |p| == 0 then ""
    else if |p| == 1 then ComponentText(p[0])
    else Display(p[..|p| - 1]) + "/" + ComponentText(p[|p| - 1])
  }
}
