/**
 * The platform adapter behind the store: one mutable file system whose
 * methods are the System.IO calls the store makes. Each method applies
 * the matching primitive of DiskModel to the current state.
 */
module Platform {
  import opened Clock
  import opened DiskModel

  class FileSystem {
    var files: map<Path, FileEntry>
    var dirs: set<Path>
    var order: seq<Path>
    /** The text encoding of File.WriteAllText / File.OpenText. */
    const encoding: Encoding

    constructor (initial: Disk, encoding: Encoding)
      ensures State() == initial && this.encoding == encoding
    {
      files, dirs, order := initial.files, initial.dirs, initial.order;
      this.encoding := encoding;
    }

    function State(): Disk
      reads this
    {
      Disk(files, dirs, order)
    }

    /** File.Exists: true exactly when File.ReadAllBytes would succeed. */
    predicate FileExists(p: Path)
      reads this
      ensures FileExists(p) <==> ReadFile(State(), p).Ok?
    {
      p in files
    }

    /** Directory.Exists: true exactly when Directory.GetFiles would succeed. */
    predicate DirectoryExists(p: Path)
      reads this
      ensures DirectoryExists(p) <==> DiskModel.GetFiles(State(), p).Ok?
    {
      p in dirs
    }

    /** Directory.GetFiles, for a directory that exists. */
    function GetFiles(dir: Path): (r: seq<Path>)
      reads this
      ensures forall q :: q in r <==> q in order && IsChildOf(q, dir)
      ensures dir in dirs ==> DiskModel.GetFiles(State(), dir) == Ok(r)
    {
      Children(State(), dir)
    }

    /** Installs the outcome of a primitive: the new state when it
        succeeded, nothing when it threw. */
    method Apply(r: Result<Disk>) returns (res: Result<()>)
      modifies this
      ensures Step(State(), res) == Commit(old(State()), r)
    {
      match r
      case Ok(d) =>
        files, dirs, order := d.files, d.dirs, d.order;
        res := Ok(());
      case Err(e) =>
        res := Err(e);
    }

    method WriteAllBytes(p: Path, data: seq<byte>, now: DateTime) returns (r: Result<()>)
      modifies this
      ensures Step(State(), r) == Commit(old(State()), WriteFile(old(State()), p, data, now))
    {
      r := Apply(WriteFile(State(), p, data, now));
    }

    method WriteAllText(p: Path, text: string, now: DateTime) returns (r: Result<()>)
      modifies this
      ensures Step(State(), r) == Commit(old(State()), WriteText(old(State()), encoding, p, text, now))
    {
      r := Apply(WriteText(State(), encoding, p, text, now));
    }

    method Delete(p: Path) returns (r: Result<()>)
      modifies this
      ensures Step(State(), r) == Commit(old(State()), DeleteFile(old(State()), p))
    {
      r := Apply(DeleteFile(State(), p));
    }

    method CreateDirectory(p: Path) returns (r: Result<()>)
      modifies this
      ensures Step(State(), r) == Commit(old(State()), DiskModel.CreateDirectory(old(State()), p))
    {
      r := Apply(DiskModel.CreateDirectory(State(), p));
    }

    method DeleteDirectory(p: Path) returns (r: Result<()>)
      modifies this
      ensures Step(State(), r) == Commit(old(State()), DiskModel.DeleteDirectory(old(State()), p))
    {
      r := Apply(DiskModel.DeleteDirectory(State(), p));
    }

    method SetLastWriteTime(p: Path, t: DateTime) returns (r: Result<()>)
      modifies this
      ensures Step(State(), r) == Commit(old(State()), DiskModel.SetLastWriteTime(old(State()), p, t))
    {
      r := Apply(DiskModel.SetLastWriteTime(State(), p, t));
    }
  }
}
