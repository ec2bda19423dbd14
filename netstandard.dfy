/**
 * The NetStandard FileServiceImplementation: a service object with a
 * write-once SandboxTag and a root folder fixed when it is built. Its
 * store operations have the bodies of the newer base class; here they
 * run the Store procedures under the layout
 * `<rootFolder>/BiT21.FileService/<tag>`.
 */
module NetStandard {
  import opened Wrappers
  import opened Text
  import opened Clock
  import opened DiskModel
  import opened Sandbox
  import opened ObjectCodec
  import opened Platform
  import StoreSpec
  import Store
  import StoreProperties

  // ------------------------------------------------------------------
  // The SandboxTag property
  // ------------------------------------------------------------------

  /** The SandboxTag setter on the current field value: it throws once
      the field holds a non-blank tag, and otherwise stores the value. */
  function SetTag(current: string, value: string): (r: Result<string>)
    ensures r.Ok? <==> IsBlank(current)
    ensures r.Ok? ==> r.value == value
    ensures r.Err? ==> r.error == SandboxTagAlreadySet
  {
    if !IsBlank(current) then Err(SandboxTagAlreadySet) else Ok(value)
  }

  /** The field after a run of setter calls, each throw caught by the caller. */
  function SetTags(current: string, values: seq<string>): (r: string)
    ensures r == current || exists i | 0 <= i < |values| :: r == values[i]
    ensures IsBlank(r) ==> IsBlank(current) && forall i | 0 <= i < |values| :: IsBlank(values[i])
    decreases |values|
  {
    if values == [] then current
    else
      var next := match SetTag(current, values[0]) case Ok(t) => t case Err(_) => current;
      SetTags(next, values[1..])
  }

  /** Once the tag is set, no run of setter calls changes it. */
  lemma {:induction false} TagIsWriteOnce(current: string, values: seq<string>)
    requires !IsBlank(current)
    ensures SetTags(current, values) == current
    decreases |values|
  {
    if values != [] {
      TagIsWriteOnce(current, values[1..]);
    }
  }

  /** From a blank field, the first non-blank value set is the tag for good. */
  lemma {:induction false} FirstTagWins(current: string, values: seq<string>, i: nat)
    requires IsBlank(current) && i < |values| && !IsBlank(values[i])
    requires forall j | 0 <= j < i :: IsBlank(values[j])
    ensures SetTags(current, values) == values[i]
    decreases i
  {
    if i == 0 {
      TagIsWriteOnce(values[0], values[1..]);
    } else {
      FirstTagWins(values[0], values[1..], i - 1);
    }
  }

  // ------------------------------------------------------------------
  // ReadByteFileAsync
  // ------------------------------------------------------------------

  /** ReadByteFileAsync resolves the path inside its `try`, so a blank tag
      yields null too. */
  function ReadByteFile(d: Disk, c: Config, fileName: string, folder: string): (r: Option<seq<byte>>)
    ensures r.Some? <==> !IsBlank(c.tag) && StoreSpec.Target(c, folder, fileName) in d.files
    ensures r.Some? ==> r.value == d.files[StoreSpec.Target(c, folder, fileName)].data
  {
    match StoreSpec.ReadBytes(d, c, fileName, folder)
    case Ok(bytes) => bytes
    case Err(_) => None
  }

  /** Saved bytes read back; with a blank tag the save throws and the
      read gives null. */
  lemma ReadByteFileAfterSave(d: Disk, c: Config, data: seq<byte>, fileName: string, folder: string, now: DateTime)
    requires d.Valid()
    ensures var s := StoreSpec.SaveBytes(d, c, data, fileName, folder, now);
            && (s.result.Ok? <==> StoreSpec.CanSave(d, c, folder, fileName))
            && (s.result.Ok? ==> ReadByteFile(s.disk, c, fileName, folder) == Some(data))
            && (IsBlank(c.tag) ==> s.result == Err(SandboxTagMissing) && ReadByteFile(s.disk, c, fileName, folder) == None)
  {
    StoreProperties.SaveBytesRoundTrip(d, c, data, fileName, folder, now);
  }

  // ------------------------------------------------------------------
  // The service object
  // ------------------------------------------------------------------

  class FileServiceImplementation {
    var sandboxTag: string
    const rootFolder: Path
    const fs: FileSystem

    /** The field assignments of the constructor; Create adds its check. */
    constructor (sandboxTag: string, rootFolder: Path, fs: FileSystem)
      ensures this.sandboxTag == sandboxTag && this.rootFolder == rootFolder && this.fs == fs
    {
      this.sandboxTag := sandboxTag;
      this.rootFolder := rootFolder;
      this.fs := fs;
    }

    /** What GetPath reads: `<rootFolder>/BiT21.FileService/<tag>`. */
    function Configuration(): Config
      reads this
    {
      Config(BiT21Layout(rootFolder), sandboxTag)
    }

    /** The SandboxTag getter: throws while the field is blank. */
    function SandboxTag(): (r: Result<string>)
      reads this
      ensures r.Ok? <==> !IsBlank(sandboxTag)
      ensures r.Ok? ==> r.value == sandboxTag
      ensures r.Err? ==> r.error == SandboxTagMissing
    {
      if IsBlank(sandboxTag) then Err(SandboxTagMissing) else Ok(sandboxTag)
    }

    /** The SandboxTag setter. */
    method SetSandboxTag(value: string) returns (r: Result<()>)
      modifies this
      ensures SetTag(old(sandboxTag), value).Ok? ==> r == Ok(()) && sandboxTag == value
      ensures SetTag(old(sandboxTag), value).Err? ==> r == Err(SandboxTagAlreadySet) && sandboxTag == old(sandboxTag)
    {
      if !IsBlank(sandboxTag) {
        return Err(SandboxTagAlreadySet);
      }
      sandboxTag := value;
      r := Ok(());
    }

    /** FileServiceImplementation(sandboxTag, specialFolder): stores the
        tag without the setter's check, then creates the sandbox root;
        any failure is rethrown as ArgumentException and no service is
        built. A built service always holds a non-blank tag, so its
        setter always throws. */
    static method Create(sandboxTag: string, rootFolder: Path, fs: FileSystem)
      returns (r: Result<FileServiceImplementation>)
      modifies fs
      ensures var s := StoreSpec.GetAndCreatePath(old(fs.State()), Config(BiT21Layout(rootFolder), sandboxTag), "", "");
              && fs.State() == s.disk
              && (r.Ok? <==> s.result.Ok?)
      ensures r.Err? ==> r.error == InvalidSandbox
      ensures r.Ok? ==> fresh(r.value) && r.value.sandboxTag == sandboxTag
                        && r.value.rootFolder == rootFolder && r.value.fs == fs
      ensures r.Ok? ==> !IsBlank(sandboxTag) && SandboxRoot(r.value.Configuration()) in fs.dirs
    {
      var c := Config(BiT21Layout(rootFolder), sandboxTag);
      var root := Store.GetAndCreatePath(fs, c, "", "");
      if root.Err? {
        return Err(InvalidSandbox);
      }
      StoreSpec.RootPath(c);
      var service := new FileServiceImplementation(sandboxTag, rootFolder, fs);
      r := Ok(service);
    }

    /** SaveObjectFileAsync. */
    method SaveObjectFile<T(!new)>(json: Json<T>, content: Option<T>, fileName: string, folder: string, now: DateTime)
      returns (r: Result<()>)
      modifies fs
      ensures Step(fs.State(), r) ==
              StoreSpec.SaveObject(old(fs.State()), Configuration(), fs.encoding, json, content, fileName, folder, now)
    {
      r := Store.SaveObject(fs, Configuration(), json, content, fileName, folder, now);
    }

    /** SaveTextFileAsync. */
    method SaveTextFile(data: string, fileName: string, folder: string, now: DateTime) returns (r: Result<()>)
      modifies fs
      ensures Step(fs.State(), r) == StoreSpec.SaveText(old(fs.State()), Configuration(), fs.encoding, data, fileName, folder, now)
    {
      r := Store.SaveText(fs, Configuration(), data, fileName, folder, now);
    }

    /** SaveByteFileAsync. */
    method SaveByteFile(data: seq<byte>, fileName: string, folder: string, now: DateTime) returns (r: Result<()>)
      modifies fs
      ensures Step(fs.State(), r) == StoreSpec.SaveBytes(old(fs.State()), Configuration(), data, fileName, folder, now)
    {
      r := Store.SaveBytes(fs, Configuration(), data, fileName, folder, now);
    }

    /** DeleteFilesAsync. */
    method DeleteFiles(folder: string) returns (r: Result<()>)
      modifies fs
      ensures Step(fs.State(), r) == StoreSpec.DeleteFiles(old(fs.State()), Configuration(), folder)
    {
      r := Store.DeleteFiles(fs, Configuration(), folder);
    }

    /** DeleteFileAsync. */
    method DeleteFile(fileName: string, folder: string) returns (r: Result<()>)
      modifies fs
      ensures Step(fs.State(), r) == StoreSpec.DeleteFile(old(fs.State()), Configuration(), fileName, folder)
    {
      r := Store.DeleteFile(fs, Configuration(), fileName, folder);
    }

    /** DeleteFolderAsync. */
    method DeleteFolder(folderName: string) returns (r: Result<()>)
      modifies fs
      ensures Step(fs.State(), r) == StoreSpec.DeleteFolder(old(fs.State()), Configuration(), folderName)
    {
      r := Store.DeleteFolder(fs, Configuration(), folderName);
    }

    /** DeleteSandboxAsync. */
    method DeleteSandbox() returns (r: Result<()>)
      modifies fs
      ensures Step(fs.State(), r) == StoreSpec.DeleteSandbox(old(fs.State()), Configuration())
    {
      r := Store.DeleteSandbox(fs, Configuration());
    }

    /** IFileService4Testing.SetCacheCreation, as written. */
    method SetCacheCreation(t: DateTime, fileName: string, folder: string) returns (r: Result<()>)
      modifies fs
      ensures Step(fs.State(), r) == StoreSpec.SetCacheCreation(old(fs.State()), Configuration(), t, fileName, folder)
    {
      r := Store.SetCacheCreation(fs, Configuration(), t, fileName, folder);
    }
  }
}
