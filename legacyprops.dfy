/**
 * What the older base class guarantees, and where it departs from the
 * newer one.
 */
module LegacyProperties {
  import opened Wrappers
  import opened Text
  import opened Clock
  import opened DiskModel
  import opened Sandbox
  import opened ObjectCodec
  import opened StoreSpec
  import opened LegacySpec
  import StoreProperties

  // ------------------------------------------------------------------
  // Objects
  // ------------------------------------------------------------------

  /** Reading back a saved object under the older policy gives the value,
      except that a value serialized as blank text or `{}` reads back as
      the default; null reads back as null through the engine. */
  lemma SaveObjectReadsBack<T(!new)>(d: Disk, c: Config, enc: Encoding, json: Json<T>, content: Option<T>,
                                     fileName: string, folder: string, now: DateTime)
    requires d.Valid() && enc.Lossless() && json.Lawful()
    requires CanSave(d, c, folder, fileName)
    ensures var s := SaveObject(d, c, enc, json, content, fileName, folder, now);
            && s.result.Ok?
            && LegacySpec.ReadObject(s.disk, c, enc, json, fileName, folder) ==
               if IsEmptyTextLegacy(json.serialize(content)) then None else content
  {
    StoreProperties.SaveObjectRoundTrip(d, c, enc, json, content, fileName, folder, now);
    assert IsBlank("");
    DecodeSerializedLegacy(json, content);
  }

  /** The two read policies part on the texts `[]` and `{}`: the newer
      base answers `[]` with the default and hands `{}` to the engine;
      the older one does the opposite. */
  lemma ReadPoliciesDiffer<T(!new)>(d: Disk, c: Config, enc: Encoding, json: Json<T>,
                                    fileName: string, folder: string)
    requires fileName != "" && !IsBlank(c.tag) && Target(c, folder, fileName) in d.files
    ensures var text := enc.decode(d.files[Target(c, folder, fileName)].data);
            && (text == "[]" ==>
                  && StoreSpec.ReadObject(d, c, enc, json, fileName, folder) == None
                  && LegacySpec.ReadObject(d, c, enc, json, fileName, folder) == json.deserialize("[]"))
            && (text == "{}" ==>
                  && StoreSpec.ReadObject(d, c, enc, json, fileName, folder) == json.deserialize("{}")
                  && LegacySpec.ReadObject(d, c, enc, json, fileName, folder) == None)
  {
    assert "[]"[0] == '[' && !IsWhiteSpace('[');
    assert "{}"[0] == '{' && !IsWhiteSpace('{');
  }

  // ------------------------------------------------------------------
  // Freshness
  // ------------------------------------------------------------------

  /** Rewriting a file through the older SaveFileAsync keeps its creation
      time, so the older freshness check gives the same answer before and
      after; with a blank folder the save is refused and changes no file,
      so the answer is the same as well. */
  lemma RewriteKeepsFreshness(d: Disk, c: Config, data: seq<byte>, fileName: string, folder: string,
                              cacheTime: Int32, now: DateTime, later: DateTime)
    requires d.Valid() && !IsBlank(c.tag) && !IsBlank(fileName)
    requires Target(c, folder, fileName) in d.files
    ensures var s := SaveFileAsWritten(d, c, data, fileName, folder, now);
            && (s.result.Ok? <==> !IsBlank(folder))
            && LegacySpec.ExistRecentCache(s.disk, c, fileName, cacheTime, folder, later) ==
               LegacySpec.ExistRecentCache(d, c, fileName, cacheTime, folder, later)
  {
    if !IsBlank(folder) {
      OverwriteKeepsCreation(d, c, data, fileName, folder, now);
    }
  }

  /** Saving over an existing file into a non-blank folder succeeds and
      keeps that file's creation time. */
  lemma OverwriteKeepsCreation(d: Disk, c: Config, data: seq<byte>, fileName: string, folder: string,
                               now: DateTime)
    requires d.Valid() && !IsBlank(c.tag) && !IsBlank(fileName) && !IsBlank(folder)
    requires Target(c, folder, fileName) in d.files
    ensures var s := SaveBytes(d, c, data, fileName, folder, now);
            && s.result.Ok?
            && Target(c, folder, fileName) in s.disk.files
            && s.disk.files[Target(c, folder, fileName)].created == d.files[Target(c, folder, fileName)].created
  {
    var dir := FolderOf(c, folder);
    var p := Target(c, folder, fileName);
    FileInFolder(c, folder, fileName);
    assert Parent(p) == dir && dir in d.dirs;
    forall k | 0 <= k <= |dir| ensures dir[..k] !in d.files {
      assert Ancestor(dir, k) in d.dirs;
    }
    StoreProperties.SaveBytesRoundTrip(d, c, data, fileName, folder, now);
    var g := GetAndCreatePath(d, c, folder, fileName);
    assert g.disk.files == d.files && g.result == Ok(p);
    assert WriteFile(g.disk, p, data, now).value.files[p].created == d.files[p].created;
  }

  /** For a file created at `t`, with a span that stays in range, the
      older freshness check compares `t` plus the span with `later`. */
  lemma RecentFromCreation(d: Disk, c: Config, fileName: string, folder: string,
                           cacheTime: Int32, later: DateTime)
    requires !IsBlank(c.tag) && Target(c, folder, fileName) in d.files
    requires 0 <= cacheTime && cacheTime * 3600 <= MaxSeconds
    requires d.files[Target(c, folder, fileName)].created + cacheTime * TicksPerHour <= MaxTicks
    ensures LegacySpec.ExistRecentCache(d, c, fileName, cacheTime, folder, later) ==
            Ok(d.files[Target(c, folder, fileName)].created + cacheTime * TicksPerHour > later)
  {
    assert TicksPerHour == 36_000_000_000;
    assert 0 <= cacheTime * TicksPerHour;
  }

  /** A file saved for the first time through the older SaveFileAsync at
      `now` is recent at `later` exactly when `now` plus `cacheTime` hours
      is strictly later; with a blank folder the save is refused and the
      file stays missing, so it is not recent. */
  lemma FreshnessBoundary(d: Disk, c: Config, data: seq<byte>, fileName: string, folder: string,
                          cacheTime: Int32, now: DateTime, later: DateTime)
    requires d.Valid() && CanSave(d, c, folder, fileName)
    requires Target(c, folder, fileName) !in d.files
    requires 0 <= cacheTime && cacheTime * 3600 <= MaxSeconds && now + cacheTime * TicksPerHour <= MaxTicks
    ensures var s := SaveFileAsWritten(d, c, data, fileName, folder, now);
            && (s.result.Ok? <==> !IsBlank(folder))
            && LegacySpec.ExistRecentCache(s.disk, c, fileName, cacheTime, folder, later) ==
               if IsBlank(folder) then Ok(false) else Ok(now + cacheTime * TicksPerHour > later)
  {
    if !IsBlank(folder) {
      var p := Target(c, folder, fileName);
      StoreProperties.SaveBytesRoundTrip(d, c, data, fileName, folder, now);
      var g := GetAndCreatePath(d, c, folder, fileName);
      assert g.disk.files == d.files && g.result == Ok(p);
      var after := WriteFile(g.disk, p, data, now).value;
      assert after.files[p].created == now;
      RecentFromCreation(after, c, fileName, folder, cacheTime, later);
    }
  }

  // ------------------------------------------------------------------
  // DeleteFolderAsync on the unresolved name
  // ------------------------------------------------------------------

  /** As written, DeleteFolderAsync leaves the sandbox's folder in place
      when the working directory has no folder of that name, where the
      newer base removes it. */
  lemma DeleteFolderMissesSandboxFolder(d: Disk, c: Config, name: string, cwd: Path)
    requires d.Valid() && !IsBlank(c.tag) && !IsBlank(name)
    requires FolderOf(c, name) in d.dirs && cwd + [name] !in d.dirs
    ensures DeleteFolderAsWritten(d, c, name, cwd) == Step(d, Ok(()))
    ensures ExistNamedFolder(DeleteFolderAsWritten(d, c, name, cwd).disk, c, name) == Ok(true)
    ensures ExistNamedFolder(StoreSpec.DeleteFolder(d, c, name).disk, c, name) == Ok(false)
  {
    StoreProperties.DeleteFolderRemovesTree(d, c, name);
  }

  /** As written, DeleteFolderAsync removes the working directory's
      folder of that name, with everything below it. */
  lemma DeleteFolderReachesWorkingDirectory(d: Disk, c: Config, name: string, cwd: Path)
    requires d.Valid() && !IsBlank(c.tag) && !IsBlank(name)
    ensures var s := DeleteFolderAsWritten(d, c, name, cwd);
            && s.result.Ok?
            && cwd + [name] !in s.disk.dirs
            && (forall q | q in s.disk.files :: !(cwd + [name] < q))
  {
    StoreProperties.DeleteFolderAtClears(d, cwd + [name]);
  }

  // ------------------------------------------------------------------
  // SaveFileAsync without a folder
  // ------------------------------------------------------------------

  /** As written, SaveFileAsync with no folder throws after creating the
      sandbox and never writes the bytes, where the newer base's
      SaveByteFileAsync writes them and reads them back. */
  lemma SaveFileWithoutFolderFails(d: Disk, c: Config, data: seq<byte>, fileName: string, now: DateTime)
    requires d.Valid() && CanSave(d, c, "", fileName)
    ensures var s := SaveFileAsWritten(d, c, data, fileName, "", now);
            && s.result == Err(InvalidPath)
            && ReadBytes(s.disk, c, fileName, "") == ReadBytes(d, c, fileName, "")
    ensures var s := SaveBytes(d, c, data, fileName, "", now);
            && s.result.Ok?
            && ReadBytes(s.disk, c, fileName, "") == Ok(Some(data))
  {
    assert IsBlank("");
    StoreProperties.SaveBytesRoundTrip(d, c, data, fileName, "", now);
  }

  /** SaveFileTemporalAsync on a new name in an existing temporary folder
      writes the bytes there and nowhere else. */
  lemma SaveFileTemporalWrites(d: Disk, temp: Path, data: seq<byte>, name: string, now: DateTime)
    requires d.Valid() && temp in d.dirs && name != "" && temp + [name] !in d.dirs
    ensures var s := SaveFileTemporal(d, temp, data, Some(name), now);
            && s.result.Ok?
            && s.disk.Valid()
            && ReadFile(s.disk, temp + [name]) == Ok(data)
            && s.disk.files - {temp + [name]} == d.files - {temp + [name]}
  {
  }
}
