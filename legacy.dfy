/**
 * The older Plugin.FileService base class. GetPath, GetAndCreatePath,
 * FileExist and the saves, reads, listings and deletes whose bodies it
 * shares with the newer base are the StoreSpec functions and Store
 * procedures under a PluginLayout configuration. This module holds what
 * differs: the `{}` read policy, freshness counted in hours from the
 * creation time, DeleteFolderAsync on the unresolved name, SaveFileAsync
 * with its extra directory creation, and SaveFileTemporalAsync.
 */
module LegacySpec {
  import opened Wrappers
  import opened Text
  import opened Clock
  import opened DiskModel
  import opened Sandbox
  import opened ObjectCodec
  import StoreSpec

  /** ReadObjectFileAsync: the default value when the name is empty, the
      file is missing, anything throws, or the text is blank or `{}`;
      otherwise what the engine makes of the text. */
  function ReadObject<T(!new)>(d: Disk, c: Config, enc: Encoding, json: Json<T>,
                               fileName: string, folder: string): (r: Option<T>)
    ensures fileName == "" || IsBlank(c.tag) ==> r == None
    ensures fileName != "" && !IsBlank(c.tag) && StoreSpec.Target(c, folder, fileName) !in d.files ==> r == None
    ensures fileName != "" && !IsBlank(c.tag) && StoreSpec.Target(c, folder, fileName) in d.files ==>
            r == DecodeObjectLegacy(json, enc.decode(d.files[StoreSpec.Target(c, folder, fileName)].data))
  {
    match StoreSpec.ExistsFile(d, c, fileName, folder)
    case Err(_) => None
    case Ok(found) =>
      if !found then None
      else
        match DiskModel.ReadText(d, enc, GetPath(c, folder, fileName).value)
        case Err(_) => None
        case Ok(text) => DecodeObjectLegacy(json, text)
  }

  /** ExistRecentCacheAsync: false for a missing file; otherwise whether
      the creation time plus `cacheTime` hours is strictly later than
      `now`. Building the span and adding it throw when they leave the
      TimeSpan or DateTime range. */
  function ExistRecentCache(d: Disk, c: Config, fileName: string, cacheTime: Int32,
                            folder: string, now: DateTime): (r: Result<bool>)
    ensures IsBlank(c.tag) ==> r == Err(SandboxTagMissing)
    ensures !IsBlank(c.tag) && StoreSpec.Target(c, folder, fileName) !in d.files ==> r == Ok(false)
    ensures !IsBlank(c.tag) && StoreSpec.Target(c, folder, fileName) in d.files ==>
            var t := d.files[StoreSpec.Target(c, folder, fileName)].created + cacheTime * TicksPerHour;
            r == if -MaxSeconds <= cacheTime * 3600 <= MaxSeconds && 0 <= t <= MaxTicks then Ok(t > now)
                 else Err(OutOfRange)
  {
    match GetPath(c, folder, fileName)
    case Err(e) => Err(e)
    case Ok(p) =>
      if p !in d.files then Ok(false)
      else
        match Hours(cacheTime)
        case None => Err(OutOfRange)
        case Some(span) =>
          match AddSpan(CreationTime(d, p), span)
          case None => Err(OutOfRange)
          case Some(t) => Ok(t > now)
  }

  /** DeleteFolderAsync as written: after the blank-name check it resolves
      the folder's path but hands the bare name to DeleteFolder, which the
      platform resolves against the process's working directory `cwd`. */
  function DeleteFolderAsWritten(d: Disk, c: Config, folderName: string, cwd: Path): (s: Step<()>)
    ensures IsBlank(folderName) ==> s == Step(d, Err(FolderNameMissing))
    ensures !IsBlank(folderName) && IsBlank(c.tag) ==> s == Step(d, Err(SandboxTagMissing))
    ensures !IsBlank(folderName) && !IsBlank(c.tag) ==> s == StoreSpec.DeleteFolderAt(d, cwd + [folderName])
  {
    if IsBlank(folderName) then Step(d, Err(FolderNameMissing))
    else
      match GetPath(c, folderName, "")
      case Err(e) => Step(d, Err(e))
      case Ok(_) => StoreSpec.DeleteFolderAt(d, cwd + [folderName])
  }

  /** SaveFileAsync as written: after GetAndCreatePath, a blank folder
      name (which Directory.Exists never finds) is passed to
      Directory.CreateDirectory, which throws on a blank path, so the
      bytes are only written when a folder is named. */
  function SaveFileAsWritten(d: Disk, c: Config, data: seq<byte>, fileName: string, folder: string,
                             now: DateTime): (s: Step<()>)
    ensures IsBlank(c.tag) ==> s == Step(d, Err(SandboxTagMissing))
    ensures !IsBlank(folder) ==> s == StoreSpec.SaveBytes(d, c, data, fileName, folder, now)
    ensures IsBlank(folder) ==> s.result.Err? && s.disk.files == d.files
  {
    var g := StoreSpec.GetAndCreatePath(d, c, folder, fileName);
    match g.result
    case Err(e) => Step(g.disk, Err(e))
    case Ok(path) =>
      if IsBlank(folder) then Step(g.disk, Err(InvalidPath))
      else Commit(g.disk, WriteFile(g.disk, path, data, now))
  }

  /** The file SaveFileTemporalAsync aims at: Path.Combine(temp, fileName). */
  function TempTarget(temp: Path, name: string): (r: Path)
    ensures name == "" ==> r == temp
    ensures name != "" ==> r != [] && Parent(r) == temp && r[|r| - 1] == name
  {
    if name == "" then temp else temp + [name]
  }

  /** SaveFileTemporalAsync: a null name throws in Path.Combine; an empty
      name, or a name that is a directory in the temporary folder, has no
      effect; otherwise the bytes are written to `temp/fileName`. */
  function SaveFileTemporal(d: Disk, temp: Path, data: seq<byte>, fileName: Option<string>, now: DateTime): (s: Step<()>)
    ensures fileName.None? ==> s == Step(d, Err(InvalidPath))
    ensures fileName.Some? ==> (s.result.Ok? <==> fileName.value == "" || temp + [fileName.value] in d.dirs || temp in d.dirs)
    ensures fileName.Some? && (fileName.value == "" || temp + [fileName.value] in d.dirs) ==> s.disk == d
    ensures s.disk.dirs == d.dirs
    ensures fileName.Some? ==> s.disk.files - {temp + [fileName.value]} == d.files - {temp + [fileName.value]}
    ensures fileName.Some? && fileName.value != "" && temp + [fileName.value] !in d.dirs && s.result.Ok? ==>
            ReadFile(s.disk, temp + [fileName.value]) == Ok(data)
    ensures d.Valid() ==> s.disk.Valid()
  {
    match fileName
    case None => Step(d, Err(InvalidPath))
    case Some(name) =>
      var target := TempTarget(temp, name);
      if target in d.dirs || name == "" then Step(d, Ok(()))
      else Commit(d, WriteFile(d, target, data, now))
  }
}

/**
 * The older base class's mutating operations that differ from the newer
 * one, as procedures over the platform's file system.
 */
module LegacyStore {
  import opened Wrappers
  import opened Text
  import opened Clock
  import opened DiskModel
  import opened Sandbox
  import opened Platform
  import Store
  import LegacySpec

  /** DeleteFolderAsync as written. */
  method DeleteFolder(fs: FileSystem, c: Config, folderName: string, cwd: Path) returns (r: Result<()>)
    modifies fs
    ensures Step(fs.State(), r) == LegacySpec.DeleteFolderAsWritten(old(fs.State()), c, folderName, cwd)
  {
    if IsBlank(folderName) {
      return Err(FolderNameMissing);
    }
    var folderPath := GetPath(c, folderName, "");
    if folderPath.Err? {
      return Err(folderPath.error);
    }
    r := Store.DeleteFolderAt(fs, cwd + [folderName]);
  }

  /** SaveFileAsync as written. */
  method SaveFile(fs: FileSystem, c: Config, data: seq<byte>, fileName: string, folder: string, now: DateTime)
    returns (r: Result<()>)
    modifies fs
    ensures Step(fs.State(), r) == LegacySpec.SaveFileAsWritten(old(fs.State()), c, data, fileName, folder, now)
  {
    var filePath := Store.GetAndCreatePath(fs, c, folder, fileName);
    if filePath.Err? {
      return Err(filePath.error);
    }
    if IsBlank(folder) {
      // Directory.Exists is false for a blank path and CreateDirectory throws on it.
      return Err(InvalidPath);
    }
    r := fs.WriteAllBytes(filePath.value, data, now);
  }

  /** SaveFileTemporalAsync. */
  method SaveFileTemporal(fs: FileSystem, temp: Path, data: seq<byte>, fileName: Option<string>, now: DateTime)
    returns (r: Result<()>)
    modifies fs
    ensures Step(fs.State(), r) == LegacySpec.SaveFileTemporal(old(fs.State()), temp, data, fileName, now)
  {
    if fileName.None? {
      return Err(InvalidPath);
    }
    var name := fileName.value;
    var directoryName := LegacySpec.TempTarget(temp, name);
    if !fs.DirectoryExists(directoryName) && name != "" {
      r := fs.WriteAllBytes(directoryName, data, now);
    } else {
      r := Ok(());
    }
  }
}
