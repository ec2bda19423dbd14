/**
 * The store's operations as functions of the file-system state: what
 * each IFileService call of FileServiceBase (and, with the BiT21 layout,
 * of the NetStandard FileServiceImplementation, whose bodies are the
 * same) does to the disk and what it returns or throws. A mutating
 * operation yields a Step: the state it leaves (including the effects of
 * the steps before a throw) and its outcome.
 */
module StoreSpec {
  import opened Wrappers
  import opened Text
  import opened Clock
  import opened DiskModel
  import opened Sandbox
  import opened ObjectCodec

  // ------------------------------------------------------------------
  // Paths
  // ------------------------------------------------------------------

  /** The folder GetPath(folder) names. */
  function FolderOf(c: Config, folder: string): Path
    requires !IsBlank(c.tag)
  {
    GetPath(c, folder, "").value
  }

  /** The path GetPath(folder, fileName) names. */
  function Target(c: Config, folder: string, fileName: string): Path
    requires !IsBlank(c.tag)
  {
    GetPath(c, folder, fileName).value
  }

  /** With neither folder nor file name, GetPath names the sandbox root. */
  lemma RootPath(c: Config)
    ensures !IsBlank(c.tag) ==> FolderOf(c, "") == SandboxRoot(c)
  {
    assert IsBlank("");
    assert SandboxRoot(c) + [] + [] == SandboxRoot(c);
  }

  /** GetFullPath(contentFolder): the sandbox root, or the named folder
      directly inside it. */
  function GetFullPath(c: Config, folder: string): (r: Result<Path>)
    ensures r.Err? <==> IsBlank(c.tag)
    ensures r.Ok? && IsBlank(folder) ==> r.value == SandboxRoot(c)
    ensures r.Ok? && !IsBlank(folder) ==> r.value == SandboxRoot(c) + [folder]
  {
    assert IsBlank("");
    GetPath(c, folder, "")
  }

  /** No prefix of `dir` is a file, so Directory.CreateDirectory(dir) succeeds. */
  predicate CanCreate(d: Disk, dir: Path) {
    forall k | 0 <= k <= |dir| :: dir[..k] !in d.files
  }

  /** The conditions under which a save succeeds on a well-formed disk. */
  ghost predicate CanSave(d: Disk, c: Config, folder: string, fileName: string) {
    && !IsBlank(c.tag)
    && !IsBlank(fileName)
    && CanCreate(d, FolderOf(c, folder))
    && Target(c, folder, fileName) !in d.dirs
  }

  /** `d'` differs from `d` at most in the file `target` and in the
      directories created on the way to `dir`. */
  ghost predicate ChangesOnly(d: Disk, d': Disk, target: Path, dir: Path) {
    && d'.files - {target} == d.files - {target}
    && d.dirs <= d'.dirs <= d.dirs + Prefixes(dir)
  }

  /** GetAndCreatePath(folder, fileName): makes sure the folder exists and
      returns the path of the file in it. */
  function GetAndCreatePath(d: Disk, c: Config, folder: string, fileName: string): (s: Step<Path>)
    ensures IsBlank(c.tag) ==> s == Step(d, Err(SandboxTagMissing))
    ensures !IsBlank(c.tag) && d.Valid() ==> (s.result.Ok? <==> CanCreate(d, FolderOf(c, folder)))
    ensures s.result.Err? ==> s.disk == d
    ensures s.result.Ok? ==> s.result == GetPath(c, folder, fileName) && FolderOf(c, folder) in s.disk.dirs
    ensures s.result.Ok? ==> d.dirs <= s.disk.dirs <= d.dirs + Prefixes(FolderOf(c, folder))
    ensures s.disk.files == d.files && s.disk.order == d.order
    ensures d.Valid() ==> s.disk.Valid()
  {
    match GetPath(c, folder, "")
    case Err(e) => Step(d, Err(e))
    case Ok(dir) =>
      if dir in d.dirs then
        assert d.Valid() ==> CanCreate(d, dir) by {
          if d.Valid() {
            forall k | 0 <= k <= |dir| ensures dir[..k] !in d.files {
              assert Ancestor(dir, k) in d.dirs;
            }
          }
        }
        Step(d, GetPath(c, folder, fileName))
      else
        match DiskModel.CreateDirectory(d, dir)
        case Err(e) => Step(d, Err(e))
        case Ok(d') =>
          assert dir[..|dir|] == dir && dir[..|dir|] in Prefixes(dir);
          Step(d', GetPath(c, folder, fileName))
  }

  // ------------------------------------------------------------------
  // Existence checks
  // ------------------------------------------------------------------

  /** ExistsFile: an empty name is answered `false` before the tag is
      looked at; otherwise whether the resolved path is a file. */
  function ExistsFile(d: Disk, c: Config, fileName: string, folder: string): (r: Result<bool>)
    ensures fileName == "" ==> r == Ok(false)
    ensures fileName != "" && IsBlank(c.tag) ==> r == Err(SandboxTagMissing)
    ensures r == Ok(true) <==> fileName != "" && !IsBlank(c.tag) && Target(c, folder, fileName) in d.files
  {
    if fileName == "" then Ok(false)
    else
      match GetPath(c, folder, fileName)
      case Err(e) => Err(e)
      case Ok(p) => Ok(p in d.files)
  }

  /** ExistFolder (private): whether GetPath(folder) is a directory. */
  function ExistFolder(d: Disk, c: Config, folder: string): (r: Result<bool>)
    ensures r.Err? <==> IsBlank(c.tag)
    ensures r == Ok(true) <==> !IsBlank(c.tag) && FolderOf(c, folder) in d.dirs
  {
    match GetPath(c, folder, "")
    case Err(e) => Err(e)
    case Ok(p) => Ok(p in d.dirs)
  }

  /** ExistFolderAsync: a blank folder name is answered `false` at once. */
  function ExistNamedFolder(d: Disk, c: Config, folder: string): (r: Result<bool>)
    ensures IsBlank(folder) ==> r == Ok(false)
    ensures r.Err? <==> !IsBlank(folder) && IsBlank(c.tag)
    ensures r.Err? ==> r.error == SandboxTagMissing
    ensures r == Ok(true) <==> !IsBlank(folder) && !IsBlank(c.tag) && FolderOf(c, folder) in d.dirs
  {
    if IsBlank(folder) then Ok(false) else ExistFolder(d, c, folder)
  }

  /** ExistSandBoxAsync: whether the sandbox root is a directory. */
  function ExistSandbox(d: Disk, c: Config): (r: Result<bool>)
    ensures r.Err? <==> IsBlank(c.tag)
    ensures r.Err? ==> r.error == SandboxTagMissing
    ensures r == Ok(true) <==> !IsBlank(c.tag) && SandboxRoot(c) in d.dirs
  {
    RootPath(c);
    ExistFolder(d, c, "")
  }

  // ------------------------------------------------------------------
  // Objects
  // ------------------------------------------------------------------

  /** SaveObjectFileAsync: resolves and creates the folder, deletes an
      existing file, then writes the serialized value as text. */
  function SaveObject<T(!new)>(d: Disk, c: Config, enc: Encoding, json: Json<T>, content: Option<T>,
                               fileName: string, folder: string, now: DateTime): (s: Step<()>)
    ensures IsBlank(c.tag) ==> s == Step(d, Err(SandboxTagMissing))
    ensures !IsBlank(c.tag) ==> ChangesOnly(d, s.disk, Target(c, folder, fileName), FolderOf(c, folder))
    ensures s.result.Ok? ==> Target(c, folder, fileName) in s.disk.files
    ensures s.result.Ok? ==> s.disk.files[Target(c, folder, fileName)] == FileEntry(enc.encode(json.serialize(content)), now, now)
    ensures d.Valid() ==> s.disk.Valid()
  {
    var p := GetAndCreatePath(d, c, folder, fileName);
    match p.result
    case Err(e) => Step(p.disk, Err(e))
    case Ok(path) =>
      var cleared := if path in p.disk.files then Commit(p.disk, DiskModel.DeleteFile(p.disk, path))
                     else Step(p.disk, Ok(()));
      if cleared.result.Err? then cleared
      else Commit(cleared.disk, WriteText(cleared.disk, enc, path, json.serialize(content), now))
  }

  /** ReadObjectFileAsync: the default value when the name is empty, the
      file is missing, anything throws, or the text is blank, `[]` or
      `null`; otherwise what the engine makes of the text. */
  function ReadObject<T(!new)>(d: Disk, c: Config, enc: Encoding, json: Json<T>,
                               fileName: string, folder: string): (r: Option<T>)
    ensures fileName == "" || IsBlank(c.tag) ==> r == None
    ensures fileName != "" && !IsBlank(c.tag) && Target(c, folder, fileName) !in d.files ==> r == None
    ensures fileName != "" && !IsBlank(c.tag) && Target(c, folder, fileName) in d.files ==>
            r == DecodeObject(json, enc.decode(d.files[Target(c, folder, fileName)].data))
  {
    match ExistsFile(d, c, fileName, folder)
    case Err(_) => None
    case Ok(found) =>
      if !found then None
      else
        match DiskModel.ReadText(d, enc, GetPath(c, folder, fileName).value)
        case Err(_) => None
        case Ok(text) => DecodeObject(json, text)
  }

  // ------------------------------------------------------------------
  // Text and bytes
  // ------------------------------------------------------------------

  /** SaveTextFileAsync: resolves and creates the folder, then writes the text. */
  function SaveText(d: Disk, c: Config, enc: Encoding, data: string,
                    fileName: string, folder: string, now: DateTime): (s: Step<()>)
    ensures IsBlank(c.tag) ==> s == Step(d, Err(SandboxTagMissing))
    ensures !IsBlank(c.tag) ==> ChangesOnly(d, s.disk, Target(c, folder, fileName), FolderOf(c, folder))
    ensures s.result.Ok? ==> Target(c, folder, fileName) in s.disk.files
    ensures s.result.Ok? ==> s.disk.files[Target(c, folder, fileName)].data == enc.encode(data)
    ensures s.result.Ok? ==> s.disk.files[Target(c, folder, fileName)].lastWrite == now
    ensures d.Valid() ==> s.disk.Valid()
  {
    var p := GetAndCreatePath(d, c, folder, fileName);
    match p.result
    case Err(e) => Step(p.disk, Err(e))
    case Ok(path) => Commit(p.disk, WriteText(p.disk, enc, path, data, now))
  }

  /** ReadTextFileAsync: the empty string for a missing file. */
  function ReadText(d: Disk, c: Config, enc: Encoding, fileName: string, folder: string): (r: Result<string>)
    ensures r.Err? <==> IsBlank(c.tag)
    ensures r.Ok? && Target(c, folder, fileName) !in d.files ==> r.value == ""
    ensures r.Ok? && Target(c, folder, fileName) in d.files ==> r.value == enc.decode(d.files[Target(c, folder, fileName)].data)
  {
    match GetPath(c, folder, fileName)
    case Err(e) => Err(e)
    case Ok(p) =>
      if p !in d.files then Ok("")
      else DiskModel.ReadText(d, enc, p)
  }

  /** SaveByteFileAsync: resolves and creates the folder, then writes the bytes. */
  function SaveBytes(d: Disk, c: Config, data: seq<byte>,
                     fileName: string, folder: string, now: DateTime): (s: Step<()>)
    ensures IsBlank(c.tag) ==> s == Step(d, Err(SandboxTagMissing))
    ensures !IsBlank(c.tag) ==> ChangesOnly(d, s.disk, Target(c, folder, fileName), FolderOf(c, folder))
    ensures s.result.Ok? ==> Target(c, folder, fileName) in s.disk.files
    ensures s.result.Ok? ==> s.disk.files[Target(c, folder, fileName)].data == data
    ensures s.result.Ok? ==> s.disk.files[Target(c, folder, fileName)].lastWrite == now
    ensures d.Valid() ==> s.disk.Valid()
  {
    var p := GetAndCreatePath(d, c, folder, fileName);
    match p.result
    case Err(e) => Step(p.disk, Err(e))
    case Ok(path) => Commit(p.disk, WriteFile(p.disk, path, data, now))
  }

  /** ReadByteFileAsync: null (None) for a missing file or a failed read;
      a blank tag escapes the `try` and throws. */
  function ReadBytes(d: Disk, c: Config, fileName: string, folder: string): (r: Result<Option<seq<byte>>>)
    ensures r.Err? <==> IsBlank(c.tag)
    ensures r.Ok? ==> (r.value.Some? <==> Target(c, folder, fileName) in d.files)
    ensures r.Ok? && r.value.Some? ==> r.value.value == d.files[Target(c, folder, fileName)].data
  {
    match GetPath(c, folder, fileName)
    case Err(e) => Err(e)
    case Ok(p) =>
      if p !in d.files then Ok(None)
      else
        match ReadFile(d, p)
        case Ok(data) => Ok(Some(data))
        case Err(_) => Ok(None)
  }

  // ------------------------------------------------------------------
  // Listing
  // ------------------------------------------------------------------

  /** Each rendered path's leaf name is its last segment, when that
      segment holds no '/'. */
  lemma LeafNamesOfRenders(paths: seq<Path>)
    ensures forall i | 0 <= i < |paths| && paths[i] != [] && '/' !in paths[i][|paths[i]| - 1] ::
              LeafName(Render(paths[i])) == paths[i][|paths[i]| - 1]
  {
    forall i | 0 <= i < |paths| && paths[i] != [] && '/' !in paths[i][|paths[i]| - 1]
      ensures LeafName(Render(paths[i])) == paths[i][|paths[i]| - 1]
    {
      LeafNameOfRender(paths[i]);
    }
  }

  /** The text after the last '/' of each full path. */
  function LeafNames(paths: seq<Path>): (r: seq<string>)
    ensures |r| == |paths|
    ensures forall i | 0 <= i < |paths| :: '/' !in r[i]
    ensures forall i | 0 <= i < |paths| && paths[i] != [] && '/' !in paths[i][|paths[i]| - 1] ::
              r[i] == paths[i][|paths[i]| - 1]
  {
    LeafNamesOfRenders(paths);
    seq(|paths|, i requires 0 <= i < |paths| => LeafName(Render(paths[i])))
  }

  /** GetFilesNamesAsync: the leaf names of the files directly in the
      folder, in listing order; empty when the folder does not exist. */
  function GetFilesNames(d: Disk, c: Config, folder: string): (r: Result<seq<string>>)
    ensures r.Err? <==> IsBlank(c.tag)
    ensures r.Ok? && FolderOf(c, folder) !in d.dirs ==> r.value == []
    ensures r.Ok? && FolderOf(c, folder) in d.dirs ==> |r.value| == |Children(d, FolderOf(c, folder))|
    ensures r.Ok? && FolderOf(c, folder) in d.dirs ==>
              forall i, n | 0 <= i < |r.value| && Children(d, FolderOf(c, folder))[i] == FolderOf(c, folder) + [n] && '/' !in n ::
                r.value[i] == n
  {
    match GetPath(c, folder, "")
    case Err(e) => Err(e)
    case Ok(dir) =>
      if dir in d.dirs then Ok(LeafNames(Children(d, dir))) else Ok([])
  }

  // ------------------------------------------------------------------
  // Deletion
  // ------------------------------------------------------------------

  /** The `foreach (file in files) File.Delete(file)` loop: deletes the
      files in turn and stops at the first that throws. */
  function DeleteEach(d: Disk, files: seq<Path>): (s: Step<()>)
    ensures s.disk.dirs == d.dirs
    ensures forall q | q in s.disk.files :: q in d.files && s.disk.files[q] == d.files[q]
    ensures forall q | q in d.files && q !in files :: q in s.disk.files
    ensures s.result.Ok? ==> forall q | q in files :: q !in s.disk.files
    ensures d.Valid() ==> s.disk.Valid()
    ensures d.Valid() && (forall q | q in files :: CanDelete(d, q)) ==> s.result.Ok?
    decreases |files|
  {
    if files == [] then Step(d, Ok(()))
    else
      match DiskModel.DeleteFile(d, files[0])
      case Err(e) => Step(d, Err(e))
      case Ok(d') =>
        assert d.Valid() && (forall q | q in files :: CanDelete(d, q)) ==> forall q | q in files[1..] :: CanDelete(d', q) by {
          if d.Valid() && (forall q | q in files :: CanDelete(d, q)) {
            forall q | q in files[1..] ensures CanDelete(d', q) {
              assert q in files;
            }
          }
        }
        var rest := DeleteEach(d', files[1..]);
        assert forall q | q in files :: q == files[0] || q in files[1..];
        rest
  }

  /** The private DeleteFolder(folderPath): when the directory exists,
      deletes the files directly in it and then the directory with
      everything below it. */
  function DeleteFolderAt(d: Disk, path: Path): (s: Step<()>)
    ensures path !in d.dirs ==> s == Step(d, Ok(()))
    ensures forall q | q in s.disk.files :: q in d.files && s.disk.files[q] == d.files[q]
    ensures d.Valid() ==> s.disk.Valid()
  {
    if path !in d.dirs then Step(d, Ok(()))
    else
      var cleared := DeleteEach(d, Children(d, path));
      if cleared.result.Err? then cleared
      else Commit(cleared.disk, DeleteDirectory(cleared.disk, path))
  }

  /** DeleteFilesAsync: deletes the files directly in the folder; the
      folder and its sub-folders stay. */
  function DeleteFiles(d: Disk, c: Config, folder: string): (s: Step<()>)
    ensures IsBlank(c.tag) ==> s == Step(d, Err(SandboxTagMissing))
    ensures s.disk.dirs == d.dirs
    ensures forall q | q in s.disk.files :: q in d.files && s.disk.files[q] == d.files[q]
    ensures !IsBlank(c.tag) ==> forall q | q in d.files && !IsChildOf(q, FolderOf(c, folder)) :: q in s.disk.files
    ensures d.Valid() ==> s.disk.Valid()
  {
    match GetPath(c, folder, "")
    case Err(e) => Step(d, Err(e))
    case Ok(dir) =>
      if dir in d.dirs then DeleteEach(d, Children(d, dir)) else Step(d, Ok(()))
  }

  /** DeleteFileAsync: deletes the file when it exists. */
  function DeleteFile(d: Disk, c: Config, fileName: string, folder: string): (s: Step<()>)
    ensures IsBlank(c.tag) ==> s == Step(d, Err(SandboxTagMissing))
    ensures d.Valid() && !IsBlank(c.tag) ==> s.result.Ok?
    ensures !IsBlank(c.tag) && s.result.Ok? ==> s.disk.files == d.files - {Target(c, folder, fileName)}
    ensures s.disk.dirs == d.dirs
    ensures d.Valid() ==> s.disk.Valid()
  {
    match GetPath(c, folder, fileName)
    case Err(e) => Step(d, Err(e))
    case Ok(p) =>
      if p in d.files then Commit(d, DiskModel.DeleteFile(d, p)) else Step(d, Ok(()))
  }

  /** DeleteFolderAsync: a blank name throws before the tag is looked at. */
  function DeleteFolder(d: Disk, c: Config, folderName: string): (s: Step<()>)
    ensures IsBlank(folderName) ==> s == Step(d, Err(FolderNameMissing))
    ensures !IsBlank(folderName) && IsBlank(c.tag) ==> s == Step(d, Err(SandboxTagMissing))
    ensures !IsBlank(folderName) && !IsBlank(c.tag) ==> s == DeleteFolderAt(d, FolderOf(c, folderName))
  {
    if IsBlank(folderName) then Step(d, Err(FolderNameMissing))
    else
      match GetPath(c, folderName, "")
      case Err(e) => Step(d, Err(e))
      case Ok(p) => DeleteFolderAt(d, p)
  }

  /** DeleteSandboxAsync: deletes the sandbox root and everything in it. */
  function DeleteSandbox(d: Disk, c: Config): (s: Step<()>)
    ensures IsBlank(c.tag) ==> s == Step(d, Err(SandboxTagMissing))
    ensures !IsBlank(c.tag) ==> s == DeleteFolderAt(d, SandboxRoot(c))
  {
    RootPath(c);
    match GetPath(c, "", "")
    case Err(e) => Step(d, Err(e))
    case Ok(p) => DeleteFolderAt(d, p)
  }

  // ------------------------------------------------------------------
  // Freshness
  // ------------------------------------------------------------------

  /** ExistRecentCacheAsync: false for a missing file; otherwise whether
      last-write time plus the period is strictly later than `now`. The
      sum throws when it leaves the DateTime range. */
  function ExistRecentCache(d: Disk, c: Config, fileName: string, period: TimeSpan,
                            folder: string, now: DateTime): (r: Result<bool>)
    ensures IsBlank(c.tag) ==> r == Err(SandboxTagMissing)
    ensures !IsBlank(c.tag) && Target(c, folder, fileName) !in d.files ==> r == Ok(false)
    ensures !IsBlank(c.tag) && Target(c, folder, fileName) in d.files ==>
            var t := d.files[Target(c, folder, fileName)].lastWrite + period;
            r == if 0 <= t <= MaxTicks then Ok(t > now) else Err(OutOfRange)
  {
    match GetPath(c, folder, fileName)
    case Err(e) => Err(e)
    case Ok(p) =>
      if p !in d.files then Ok(false)
      else
        match AddSpan(LastWriteTime(d, p), period)
        case None => Err(OutOfRange)
        case Some(t) => Ok(t > now)
  }

  /** SetCacheCreation as written: the path is GetPath(fileName,
      contentFolder), the two names in swapped roles. */
  function SetCacheCreation(d: Disk, c: Config, t: DateTime, fileName: string, folder: string): (s: Step<()>)
    ensures IsBlank(c.tag) ==> s == Step(d, Err(SandboxTagMissing))
    ensures !IsBlank(c.tag) ==> s == Commit(d, DiskModel.SetLastWriteTime(d, Target(c, fileName, folder), t))
  {
    match GetPath(c, fileName, folder)
    case Err(e) => Step(d, Err(e))
    case Ok(p) => Commit(d, DiskModel.SetLastWriteTime(d, p, t))
  }

  /** GetCacheCreation as written, with the same swapped roles. */
  function GetCacheCreation(d: Disk, c: Config, fileName: string, folder: string): (r: Result<DateTime>)
    ensures IsBlank(c.tag) ==> r == Err(SandboxTagMissing)
    ensures !IsBlank(c.tag) ==> r == Ok(LastWriteTime(d, Target(c, fileName, folder)))
  {
    match GetPath(c, fileName, folder)
    case Err(e) => Err(e)
    case Ok(p) => Ok(LastWriteTime(d, p))
  }

  /** SetCacheCreation on the file the arguments name: the folder's file. */
  function SetCacheCreationCorrected(d: Disk, c: Config, t: DateTime, fileName: string, folder: string): (s: Step<()>)
    ensures IsBlank(c.tag) ==> s == Step(d, Err(SandboxTagMissing))
    ensures !IsBlank(c.tag) && t < FileTimeEpoch ==> s == Step(d, Err(OutOfRange))
    ensures !IsBlank(c.tag) ==> (s.result.Ok? <==> FileTimeEpoch <= t && Target(c, folder, fileName) in d.files)
    ensures s.result.Ok? ==> s.disk.files == d.files[Target(c, folder, fileName) := d.files[Target(c, folder, fileName)].(lastWrite := t)]
    ensures s.disk.dirs == d.dirs
  {
    match GetPath(c, folder, fileName)
    case Err(e) => Step(d, Err(e))
    case Ok(p) => Commit(d, DiskModel.SetLastWriteTime(d, p, t))
  }

  /** GetCacheCreation on the file the arguments name. */
  function GetCacheCreationCorrected(d: Disk, c: Config, fileName: string, folder: string): (r: Result<DateTime>)
    ensures IsBlank(c.tag) ==> r == Err(SandboxTagMissing)
    ensures !IsBlank(c.tag) && Target(c, folder, fileName) in d.files ==> r == Ok(d.files[Target(c, folder, fileName)].lastWrite)
    ensures !IsBlank(c.tag) && Target(c, folder, fileName) !in d.files ==> r == Ok(FileTimeEpoch)
  {
    match GetPath(c, folder, fileName)
    case Err(e) => Err(e)
    case Ok(p) => Ok(LastWriteTime(d, p))
  }
}
