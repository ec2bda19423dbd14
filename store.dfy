/**
 * The store's mutating operations as procedures over the platform's
 * file system, step by step as FileServiceBase runs them (and, with the
 * BiT21 layout, FileServiceImplementation). Each is proved to leave the
 * state, and return the outcome, that StoreSpec prescribes.
 */
module Store {
  import opened Wrappers
  import opened Text
  import opened Clock
  import opened DiskModel
  import opened Sandbox
  import opened ObjectCodec
  import opened Platform
  import StoreSpec

  /** GetAndCreatePath(folder, fileName). */
  method GetAndCreatePath(fs: FileSystem, c: Config, folder: string, fileName: string) returns (r: Result<Path>)
    modifies fs
    ensures Step(fs.State(), r) == StoreSpec.GetAndCreatePath(old(fs.State()), c, folder, fileName)
  {
    var folderPath := GetPath(c, folder, "");
    if folderPath.Err? {
      return Err(folderPath.error);
    }
    if !fs.DirectoryExists(folderPath.value) {
      var created := fs.CreateDirectory(folderPath.value);
      if created.Err? {
        return Err(created.error);
      }
    }
    r := GetPath(c, folder, fileName);
  }

  /** SaveObjectFileAsync. */
  method SaveObject<T(!new)>(fs: FileSystem, c: Config, json: Json<T>, content: Option<T>,
                             fileName: string, folder: string, now: DateTime) returns (r: Result<()>)
    modifies fs
    ensures Step(fs.State(), r) == StoreSpec.SaveObject(old(fs.State()), c, fs.encoding, json, content, fileName, folder, now)
  {
    var filePath := GetAndCreatePath(fs, c, folder, fileName);
    if filePath.Err? {
      return Err(filePath.error);
    }
    if fs.FileExists(filePath.value) {
      r := fs.Delete(filePath.value);
      if r.Err? {
        return;
      }
    }
    var text := json.serialize(content);
    r := fs.WriteAllText(filePath.value, text, now);
  }

  /** SaveTextFileAsync. */
  method SaveText(fs: FileSystem, c: Config, data: string, fileName: string, folder: string, now: DateTime)
    returns (r: Result<()>)
    modifies fs
    ensures Step(fs.State(), r) == StoreSpec.SaveText(old(fs.State()), c, fs.encoding, data, fileName, folder, now)
  {
    var path := GetAndCreatePath(fs, c, folder, fileName);
    if path.Err? {
      return Err(path.error);
    }
    r := fs.WriteAllText(path.value, data, now);
  }

  /** SaveByteFileAsync. */
  method SaveBytes(fs: FileSystem, c: Config, data: seq<byte>, fileName: string, folder: string, now: DateTime)
    returns (r: Result<()>)
    modifies fs
    ensures Step(fs.State(), r) == StoreSpec.SaveBytes(old(fs.State()), c, data, fileName, folder, now)
  {
    var filePath := GetAndCreatePath(fs, c, folder, fileName);
    if filePath.Err? {
      return Err(filePath.error);
    }
    r := fs.WriteAllBytes(filePath.value, data, now);
  }

  /** The `foreach (file in files) File.Delete(file)` loop of
      DeleteFilesAsync and DeleteFolder; File.SetAttributes changes
      nothing the model records. */
  method DeleteEach(fs: FileSystem, files: seq<Path>) returns (r: Result<()>)
    modifies fs
    ensures Step(fs.State(), r) == StoreSpec.DeleteEach(old(fs.State()), files)
  {
    ghost var d0 := fs.State();
    r := Ok(());
    var i := 0;
    while i < |files|
      invariant 0 <= i <= |files|
      invariant StoreSpec.DeleteEach(d0, files) == StoreSpec.DeleteEach(fs.State(), files[i..])
      invariant r == Ok(())
    {
      assert files[i..][1..] == files[i + 1..];
      r := fs.Delete(files[i]);
      if r.Err? {
        return;
      }
      i := i + 1;
    }
    assert files[i..] == [];
  }

  /** DeleteFilesAsync. */
  method DeleteFiles(fs: FileSystem, c: Config, folder: string) returns (r: Result<()>)
    modifies fs
    ensures Step(fs.State(), r) == StoreSpec.DeleteFiles(old(fs.State()), c, folder)
  {
    var documentsPath := GetPath(c, folder, "");
    if documentsPath.Err? {
      return Err(documentsPath.error);
    }
    r := Ok(());
    if fs.DirectoryExists(documentsPath.value) {
      var files := fs.GetFiles(documentsPath.value);
      r := DeleteEach(fs, files);
    }
  }

  /** DeleteFileAsync. */
  method DeleteFile(fs: FileSystem, c: Config, fileName: string, folder: string) returns (r: Result<()>)
    modifies fs
    ensures Step(fs.State(), r) == StoreSpec.DeleteFile(old(fs.State()), c, fileName, folder)
  {
    var filePath := GetPath(c, folder, fileName);
    if filePath.Err? {
      return Err(filePath.error);
    }
    r := Ok(());
    if fs.FileExists(filePath.value) {
      r := fs.Delete(filePath.value);
    }
  }

  /** The private DeleteFolder(folderPath). */
  method DeleteFolderAt(fs: FileSystem, folderPath: Path) returns (r: Result<()>)
    modifies fs
    ensures Step(fs.State(), r) == StoreSpec.DeleteFolderAt(old(fs.State()), folderPath)
  {
    r := Ok(());
    if fs.DirectoryExists(folderPath) {
      var files := fs.GetFiles(folderPath);
      r := DeleteEach(fs, files);
      if r.Err? {
        return;
      }
      r := fs.DeleteDirectory(folderPath);
    }
  }

  /** DeleteFolderAsync. */
  method DeleteFolder(fs: FileSystem, c: Config, folderName: string) returns (r: Result<()>)
    modifies fs
    ensures Step(fs.State(), r) == StoreSpec.DeleteFolder(old(fs.State()), c, folderName)
  {
    if IsBlank(folderName) {
      return Err(FolderNameMissing);
    }
    var folderPath := GetPath(c, folderName, "");
    if folderPath.Err? {
      return Err(folderPath.error);
    }
    r := DeleteFolderAt(fs, folderPath.value);
  }

  /** DeleteSandboxAsync. */
  method DeleteSandbox(fs: FileSystem, c: Config) returns (r: Result<()>)
    modifies fs
    ensures Step(fs.State(), r) == StoreSpec.DeleteSandbox(old(fs.State()), c)
  {
    var root := GetPath(c, "", "");
    if root.Err? {
      return Err(root.error);
    }
    r := DeleteFolderAt(fs, root.value);
  }

  /** SetCacheCreation, as written. */
  method SetCacheCreation(fs: FileSystem, c: Config, t: DateTime, fileName: string, folder: string)
    returns (r: Result<()>)
    modifies fs
    ensures Step(fs.State(), r) == StoreSpec.SetCacheCreation(old(fs.State()), c, t, fileName, folder)
  {
    var path := GetPath(c, fileName, folder);
    if path.Err? {
      return Err(path.error);
    }
    r := fs.SetLastWriteTime(path.value, t);
  }
}
