/** The part of the filesystem the blog reads: paths, and a map from path to
    what is there. Directory listing order and file reads come from this map. */
module Fs {
  import Text
  import FaultBase

  /** A `pathlib.Path` as its components; `/` appends one. */
  datatype Path = Path(parts: seq<string>)

  /** `path / name`. */
  function Child(p: Path, name: string): (r: Path)
    ensures r.parts == p.parts + [name]
  {
    Path(p.parts + [name])
  }

  /** The first component of an absolute path, as `pathlib` spells it. */
  predicate IsRoot(part: string) {
    part == "/" || part == "//"
  }

  /** `path.name`: the last component, `""` for an empty path or a bare
      root. */
  function Name(p: Path): string {
    if p.parts == [] || (|p.parts| == 1 && IsRoot(p.parts[0])) then "" else p.parts[|p.parts| - 1]
  }

  /** `str(path)`: the components joined with `/`. */
  function PathString(p: Path): string {
    Text.Join("/", p.parts)
  }

  /** What opening a file for reading and reading it does: yields its text
      (already in Python's text-mode newline translation), raises an
      `IOError` when opened, raises one while being read, or fails to decode
      (a `UnicodeDecodeError`, which is not an `IOError`). */
  datatype Read = Readable(text: string) | OpenFails(error: FaultBase.IoError)
                | ReadFails(error: FaultBase.IoError) | Undecodable

  /** What a path points at. */
  datatype Node = Dir | File(read: Read)

  type FileSystem = map<Path, Node>

  /** `path` is directly inside `dir`. */
  predicate ChildOf(path: Path, dir: Path) {
    |path.parts| == |dir.parts| + 1 && path.parts[..|dir.parts|] == dir.parts
  }

  /** `path.is_dir()`: the path exists and is a directory. `iterdir()`
      raises on any other path. */
  predicate IsDir(fs: FileSystem, path: Path) {
    path in fs && fs[path].Dir?
  }

  /** `dir.iterdir()` in some order: every entry of the directory exactly
      once, and nothing else. */
  ghost predicate IterDir(fs: FileSystem, dir: Path, listing: seq<Path>) {
    && (forall i :: 0 <= i < |listing| ==> ChildOf(listing[i], dir))
    && (forall i, j :: 0 <= i < j < |listing| ==> listing[i] != listing[j])
    && (forall path :: path in fs && ChildOf(path, dir) <==> path in listing)
  }

  /** The name of a child is the component it was joined with. */
  lemma NameOfChild(p: Path, name: string)
    requires p.parts != [] || !IsRoot(name)
    ensures Name(Child(p, name)) == name
  {
  }
}
