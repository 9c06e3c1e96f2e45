/** Filesystem paths and directory listings as values. A `PathBuf` is the list of the
    names of its components below the root; the filesystem itself (which entries a
    directory holds, which are directories or executable, which paths exist) is an
    input to the operations that consult it. */
module Paths {
  import opened Wrappers
  import opened Strings

  /** The names of a path's components, outermost first. */
  type Path = seq<string>

  /** `PathBuf::push` of one normal component. */
  function Push(p: Path, name: string): (r: Path)
    ensures |r| == |p| + 1 && r[..|p|] == p && r[|p|] == name
  {
    p + [name]
  }

  /** `PathBuf::pop`: the last component is removed; the root has none to remove. */
  function Pop(p: Path): (r: Path)
    ensures p == [] ==> r == []
    ensures p != [] ==> r + [p[|p| - 1]] == p
  {
    if p == [] then [] else p[..|p| - 1]
  }

  /** One item of `Path::components` on a Unix path. */
  datatype Component = RootDir | CurDir | ParentDir | Normal(name: string)

  /** How a non-empty piece between slashes reads as a component; `first` says
      whether it opens a relative path, the only place `.` is reported. */
  function Classify(pieces: seq<string>, first: bool): (r: seq<Component>)
    ensures forall k :: 0 <= k < |r| ==> r[k] != RootDir
    ensures forall k :: 0 < k < |r| ==> r[k] != CurDir
    ensures !first ==> forall k :: 0 <= k < |r| ==> r[k] != CurDir
  {
    if pieces == [] then []
    else if pieces[0] == "." then
      (if first then [CurDir] else []) + Classify(pieces[1..], false)
    else if pieces[0] == ".." then [ParentDir] + Classify(pieces[1..], false)
    else [Normal(pieces[0])] + Classify(pieces[1..], false)
  }

  /** `Path::components` of a Unix path string: a leading `/` gives `RootDir`, empty
      pieces between slashes vanish, and `.` survives only at the start of a relative
      path. */
  function Components(s: string): (r: seq<Component>)
    ensures (r != [] && r[0] == RootDir) <==> (s != [] && s[0] == '/')
    ensures forall k :: 0 < k < |r| ==> r[k] != RootDir
  {
    var absolute := s != [] && s[0] == '/';
    var pieces := NonEmpty(Split(s, '/'));
    if absolute then [RootDir] + Classify(pieces, false) else Classify(pieces, true)
  }

  /** The component names `PathBuf::from(s)` holds for an absolute path string. */
  function Names(cs: seq<Component>): (r: Path)
    ensures |r| <= |cs|
  {
    if cs == [] then []
    else match cs[0]
      case Normal(n) => [n] + Names(cs[1..])
      case ParentDir => [".."] + Names(cs[1..])
      case _ => Names(cs[1..])
  }

  /** Resolution of a path argument against the working directory: `parser::parse_path`,
      which is not part of this model, stands behind every value of this type. */
  type PathParser = (string, Path) -> Result<Path, string>

  /** `Path::display` of an absolute path: its names after a leading `/`, separated
      by `/`. */
  function Display(p: Path): (r: string)
    ensures |r| >= 1 && r[0] == '/'
  {
    "/" + Join(p, "/")
  }

  /** What a directory listing reports of one entry. */
  datatype Entry = Entry(name: string, isDir: bool, isExecutable: bool)

  /** The entries `fs::read_dir` yields, or `None` when the directory cannot be read.
      Entries the iterator reports as errors are skipped by every caller and so are
      simply absent. */
  type Listing = Option<seq<Entry>>
}
