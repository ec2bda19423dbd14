/**
 * The file system the store runs on, as a value: the files (content and
 * timestamps), the directories, and the order in which a directory
 * listing returns files. The functions below are the System.IO
 * primitives the store calls (File.WriteAllBytes, File.Delete,
 * Directory.CreateDirectory, Directory.Delete(path, true), ...), each
 * atomic: when it throws, nothing has changed.
 *
 * A path is a sequence of segments below the file-system root.
 */
module DiskModel {
  import opened Wrappers
  import opened Clock

  newtype byte = b: int | 0 <= b < 256

  type Path = seq<string>

  function Parent(p: Path): Path
    requires p != []
  {
    p[..|p| - 1]
  }

  /** The exceptions the store can raise or meet. */
  datatype Error =
    | SandboxTagMissing     // ArgumentNullException("SandboxTag")
    | FolderNameMissing     // ArgumentNullException("folderName")
    | SandboxTagAlreadySet  // Exception("SandboxTag already set to a value")
    | InvalidSandbox        // the ArgumentException a constructor wraps its failure in
    | InvalidPath           // ArgumentException / ArgumentNullException for a blank or null path
    | IOFault               // IOException, UnauthorizedAccessException, FileNotFound, DirectoryNotFound
    | OutOfRange            // ArgumentOutOfRangeException from DateTime / TimeSpan arithmetic

  datatype Result<T> = Ok(value: T) | Err(error: Error)

  datatype FileEntry = FileEntry(data: seq<byte>, created: DateTime, lastWrite: DateTime)

  datatype Disk = Disk(files: map<Path, FileEntry>, dirs: set<Path>, order: seq<Path>) {

    /** A well-formed file system: a name is a file or a directory, never
        both; every file sits in an existing directory; every prefix of a
        directory is a directory; `order` lists each file exactly once. */
    ghost predicate Valid() {
      && (forall p | p in files :: p != [] && p !in dirs && Parent(p) in dirs)
      && (forall q, k | q in dirs && 0 <= k <= |q| :: Ancestor(q, k) in dirs)
      && Distinct(order)
      && (forall p :: p in order <==> p in files)
    }
  }

  /** The first `k` segments of `p`: `p` itself or one of its ancestors. */
  function Ancestor(p: Path, k: nat): Path
    requires k <= |p|
  {
    p[..k]
  }

  /** The state an operation leaves behind and what it returned (or threw). */
  datatype Step<R> = Step(disk: Disk, result: Result<R>)

  /** A primitive's outcome as a step: on failure the disk is unchanged. */
  function Commit(d: Disk, r: Result<Disk>): (s: Step<()>)
    ensures s.result.Ok? <==> r.Ok?
    ensures s.disk == if r.Ok? then r.value else d
  {
    match r
    case Ok(d') => Step(d', Ok(()))
    case Err(e) => Step(d, Err(e))
  }

  /** The platform's text encoding (UTF-8 for File.WriteAllText). */
  datatype Encoding = Encoding(encode: string -> seq<byte>, decode: seq<byte> -> string) {
    ghost predicate Lossless() {
      forall s :: decode(encode(s)) == s
    }
  }

  predicate Distinct(s: seq<Path>) {
    forall i, j | 0 <= i < j < |s| :: s[i] != s[j]
  }

  /** The elements of `s` that satisfy `keep`, in their order. */
  function Filter(s: seq<Path>, keep: Path -> bool): (r: seq<Path>)
    ensures forall q :: q in r <==> q in s && keep(q)
    ensures Distinct(s) ==> Distinct(r)
    ensures (forall q | q in s :: !keep(q)) ==> r == []
  {
    if s == [] then []
    else Filter(s[..|s| - 1], keep) + (if keep(s[|s| - 1]) then [s[|s| - 1]] else [])
  }

  lemma FilterAppend(s: seq<Path>, x: Path, keep: Path -> bool)
    ensures Filter(s + [x], keep) == Filter(s, keep) + (if keep(x) then [x] else [])
  {
    assert (s + [x])[..|s|] == s;
  }

  /** Every ancestor of `p`, and `p` itself. */
  function Prefixes(p: Path): set<Path> {
    set k | 0 <= k <= |p| :: p[..k]
  }

  predicate IsChildOf(q: Path, dir: Path) {
    q != [] && Parent(q) == dir
  }

  /** The files directly in `dir`, in listing order. */
  function Children(d: Disk, dir: Path): (r: seq<Path>)
    ensures forall q :: q in r <==> q in d.order && IsChildOf(q, dir)
    ensures (forall q | q in d.order :: !IsChildOf(q, dir)) ==> r == []
  {
    Filter(d.order, q => IsChildOf(q, dir))
  }

  // ------------------------------------------------------------------
  // Primitives that change the disk
  // ------------------------------------------------------------------

  /** File.WriteAllBytes: creates or overwrites the file. Throws when the
      path is a directory or its directory does not exist. Overwriting
      keeps the creation time; the last-write time becomes `now`. */
  function WriteFile(d: Disk, p: Path, data: seq<byte>, now: DateTime): (r: Result<Disk>)
    ensures r.Ok? <==> p != [] && p !in d.dirs && Parent(p) in d.dirs
    ensures r.Ok? ==> p in r.value.files && r.value.files[p].data == data
    ensures r.Ok? ==> r.value.files[p].lastWrite == now
    ensures r.Ok? ==> r.value.files[p].created == if p in d.files then d.files[p].created else now
    ensures r.Ok? ==> r.value.files - {p} == d.files - {p} && r.value.dirs == d.dirs
    ensures r.Ok? && d.Valid() ==> r.value.Valid()
  {
    if p == [] || p in d.dirs || Parent(p) !in d.dirs then Err(IOFault)
    else
      var created := if p in d.files then d.files[p].created else now;
      Ok(Disk(d.files[p := FileEntry(data, created, now)], d.dirs,
              if p in d.files then d.order else d.order + [p]))
  }

  /** File.Delete succeeds on a file, and on a missing name whose
      directory exists; it throws on a directory or a missing directory. */
  predicate CanDelete(d: Disk, p: Path) {
    p !in d.dirs && (p in d.files || (p != [] && Parent(p) in d.dirs))
  }

  /** File.Delete: removes a file; a missing file in an existing
      directory is not an error. */
  function DeleteFile(d: Disk, p: Path): (r: Result<Disk>)
    ensures r.Ok? <==> CanDelete(d, p)
    ensures r.Ok? ==> r.value.files == d.files - {p} && r.value.dirs == d.dirs
    ensures r.Ok? && d.Valid() ==> r.value.Valid()
  {
    if p in d.dirs then Err(IOFault)
    else if p in d.files then Ok(Disk(d.files - {p}, d.dirs, Filter(d.order, q => q != p)))
    else if p != [] && Parent(p) in d.dirs then Ok(d)
    else Err(IOFault)
  }

  /** Directory.CreateDirectory: creates the directory and every missing
      ancestor. Throws when the path or an ancestor is a file. */
  function CreateDirectory(d: Disk, p: Path): (r: Result<Disk>)
    ensures r.Ok? <==> forall k | 0 <= k <= |p| :: p[..k] !in d.files
    ensures r.Ok? ==> r.value.dirs == d.dirs + Prefixes(p)
    ensures r.Ok? ==> r.value.files == d.files && r.value.order == d.order
    ensures r.Ok? && d.Valid() ==> r.value.Valid()
  {
    if exists k | 0 <= k <= |p| :: p[..k] in d.files then Err(IOFault)
    else
      var d' := d.(dirs := d.dirs + Prefixes(p));
      assert d.Valid() ==> d'.Valid() by {
        if d.Valid() {
          forall q, k | q in d'.dirs && 0 <= k <= |q| ensures Ancestor(q, k) in d'.dirs {
            if q in Prefixes(p) {
              var j :| 0 <= j <= |p| && q == p[..j];
              assert Ancestor(q, k) == p[..k];
            }
          }
        }
      }
      Ok(d')
  }

  /** The files that are not `p` and not below it. */
  function PruneFiles(files: map<Path, FileEntry>, p: Path): (r: map<Path, FileEntry>)
    ensures forall q :: q in r <==> q in files && !(p <= q)
    ensures forall q | q in r :: r[q] == files[q]
  {
    map q | q in files && !(p <= q) :: files[q]
  }

  /** The directories that are not `p` and not below it. */
  function PruneDirs(dirs: set<Path>, p: Path): (r: set<Path>)
    ensures forall q :: q in r <==> q in dirs && !(p <= q)
  {
    set q | q in dirs && !(p <= q)
  }

  /** Directory.Delete(p, true): removes the directory with every file and
      directory below it. Throws when the directory does not exist. */
  function DeleteDirectory(d: Disk, p: Path): (r: Result<Disk>)
    ensures r.Ok? <==> p in d.dirs
    ensures r.Ok? ==> r.value.files == PruneFiles(d.files, p) && r.value.dirs == PruneDirs(d.dirs, p)
    ensures r.Ok? && d.Valid() ==> r.value.Valid()
  {
    if p !in d.dirs then Err(IOFault)
    else
      var d' := Disk(PruneFiles(d.files, p), PruneDirs(d.dirs, p), Filter(d.order, q => !(p <= q)));
      assert d.Valid() ==> d'.Valid() by {
        if d.Valid() {
          forall q | q in d'.files ensures q != [] && q !in d'.dirs && Parent(q) in d'.dirs {
            assert !(p <= q);
          }
          forall q, k | q in d'.dirs && 0 <= k <= |q| ensures Ancestor(q, k) in d'.dirs {
            assert !(p <= q);
          }
        }
      }
      Ok(d')
  }

  /** File.SetLastWriteTime: the time becomes a Windows file time first,
      which throws ArgumentOutOfRangeException before the 1601 epoch; then
      it throws FileNotFoundException for a path that is not a file. */
  function SetLastWriteTime(d: Disk, p: Path, t: DateTime): (r: Result<Disk>)
    ensures t < FileTimeEpoch ==> r == Err(OutOfRange)
    ensures r.Ok? <==> FileTimeEpoch <= t && p in d.files
    ensures r.Ok? ==> p in r.value.files && r.value.files[p].lastWrite == t
    ensures r.Ok? ==> r.value.files[p].data == d.files[p].data && r.value.files[p].created == d.files[p].created
    ensures r.Ok? ==> r.value.files - {p} == d.files - {p} && r.value.dirs == d.dirs
    ensures r.Ok? && d.Valid() ==> r.value.Valid()
  {
    if t < FileTimeEpoch then Err(OutOfRange)
    else if p !in d.files then Err(IOFault)
    else Ok(d.(files := d.files[p := d.files[p].(lastWrite := t)]))
  }

  // ------------------------------------------------------------------
  // Primitives that only read
  // ------------------------------------------------------------------

  /** File.ReadAllBytes: throws unless the path is a file. */
  function ReadFile(d: Disk, p: Path): (r: Result<seq<byte>>)
    ensures r.Ok? <==> p in d.files
    ensures r.Ok? ==> r.value == d.files[p].data
  {
    if p in d.files then Ok(d.files[p].data) else Err(IOFault)
  }

  /** File.WriteAllText: the encoded text, written as by WriteFile. */
  function WriteText(d: Disk, enc: Encoding, p: Path, text: string, now: DateTime): Result<Disk> {
    WriteFile(d, p, enc.encode(text), now)
  }

  /** File.ReadAllText / StreamReader.ReadToEnd: the decoded content. */
  function ReadText(d: Disk, enc: Encoding, p: Path): Result<string> {
    if p in d.files then Ok(enc.decode(d.files[p].data)) else Err(IOFault)
  }

  /** Directory.GetFiles: the files directly in the directory. */
  function GetFiles(d: Disk, dir: Path): (r: Result<seq<Path>>)
    ensures r.Ok? <==> dir in d.dirs
  {
    if dir in d.dirs then Ok(Children(d, dir)) else Err(IOFault)
  }

  /** File.GetLastWriteTime; a path that is not a file gives the 1601 epoch. */
  function LastWriteTime(d: Disk, p: Path): DateTime {
    if p in d.files then d.files[p].lastWrite else FileTimeEpoch
  }

  /** File.GetCreationTime; a path that is not a file gives the 1601 epoch. */
  function CreationTime(d: Disk, p: Path): DateTime {
    if p in d.files then d.files[p].created else FileTimeEpoch
  }

  // ------------------------------------------------------------------
  // Listing order
  // ------------------------------------------------------------------

  /** Writing a new file appends it to its directory's listing; writing
      an existing one leaves every listing as it was. */
  lemma ChildrenAfterWrite(d: Disk, p: Path, data: seq<byte>, now: DateTime, dir: Path)
    requires WriteFile(d, p, data, now).Ok?
    ensures Children(WriteFile(d, p, data, now).value, dir) ==
            Children(d, dir) + (if p !in d.files && Parent(p) == dir then [p] else [])
  {
    if p !in d.files {
      FilterAppend(d.order, p, q => IsChildOf(q, dir));
    }
  }
}
