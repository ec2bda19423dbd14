/**
 * What the store promises across calls: save-then-read round trips, the
 * "absent" policy of object reads, what each delete removes and that it
 * is idempotent, the freshness boundary, and the listing of a folder
 * after a run of saves.
 */
module StoreProperties {
  import opened Wrappers
  import opened Text
  import opened Clock
  import opened DiskModel
  import opened Sandbox
  import opened ObjectCodec
  import opened StoreSpec

  // ------------------------------------------------------------------
  // Saves
  // ------------------------------------------------------------------

  /** Once GetAndCreatePath has made the folder, the write that follows
      succeeds exactly when the file name is not blank and no directory
      already has the file's path. */
  lemma WritableAfterCreate(d: Disk, c: Config, folder: string, fileName: string)
    requires d.Valid() && !IsBlank(c.tag)
    requires GetAndCreatePath(d, c, folder, fileName).result.Ok?
    ensures var d1 := GetAndCreatePath(d, c, folder, fileName).disk;
            var p := Target(c, folder, fileName);
            (p != [] && p !in d1.dirs && Parent(p) in d1.dirs) <==> (!IsBlank(fileName) && p !in d.dirs)
  {
    var d1 := GetAndCreatePath(d, c, folder, fileName).disk;
    var dir := FolderOf(c, folder);
    var p := Target(c, folder, fileName);
    if !IsBlank(fileName) {
      FileInFolder(c, folder, fileName);
      assert Parent(p) == dir;
      assert forall k | 0 <= k <= |dir| :: |dir[..k]| < |p|;
    } else {
      assert p == dir by {
        assert Segment(fileName) == [] && Segment("") == [] by { assert IsBlank(""); }
      }
    }
  }

  /** A text save succeeds exactly when CanSave holds. */
  lemma SaveTextSucceeds(d: Disk, c: Config, enc: Encoding, text: string, fileName: string, folder: string, now: DateTime)
    requires d.Valid()
    ensures SaveText(d, c, enc, text, fileName, folder, now).result.Ok? <==> CanSave(d, c, folder, fileName)
  {
    if !IsBlank(c.tag) && GetAndCreatePath(d, c, folder, fileName).result.Ok? {
      WritableAfterCreate(d, c, folder, fileName);
    }
  }

  /** Reading back a saved text gives the text. */
  lemma SaveTextRoundTrip(d: Disk, c: Config, enc: Encoding, text: string, fileName: string, folder: string, now: DateTime)
    requires d.Valid() && enc.Lossless()
    requires CanSave(d, c, folder, fileName)
    ensures var s := SaveText(d, c, enc, text, fileName, folder, now);
            s.result.Ok? && StoreSpec.ReadText(s.disk, c, enc, fileName, folder) == Ok(text)
  {
    SaveTextSucceeds(d, c, enc, text, fileName, folder, now);
  }

  /** A byte save succeeds exactly when CanSave holds, and reading the
      file back gives the bytes. */
  lemma SaveBytesRoundTrip(d: Disk, c: Config, data: seq<byte>, fileName: string, folder: string, now: DateTime)
    requires d.Valid()
    ensures var s := SaveBytes(d, c, data, fileName, folder, now);
            && (s.result.Ok? <==> CanSave(d, c, folder, fileName))
            && (s.result.Ok? ==> ReadBytes(s.disk, c, fileName, folder) == Ok(Some(data)))
  {
    if !IsBlank(c.tag) && GetAndCreatePath(d, c, folder, fileName).result.Ok? {
      WritableAfterCreate(d, c, folder, fileName);
    }
  }

  /** An object save succeeds exactly when CanSave holds, and reading it
      back gives the value, except that null and a value serialized as
      blank text, `[]` or `null` read back as the default. */
  lemma SaveObjectRoundTrip<T(!new)>(d: Disk, c: Config, enc: Encoding, json: Json<T>, content: Option<T>,
                                     fileName: string, folder: string, now: DateTime)
    requires d.Valid() && enc.Lossless() && json.Lawful()
    ensures var s := SaveObject(d, c, enc, json, content, fileName, folder, now);
            && (s.result.Ok? <==> CanSave(d, c, folder, fileName))
            && (s.result.Ok? ==> ExistsFile(s.disk, c, fileName, folder) == Ok(true))
            && (s.result.Ok? ==> ReadObject(s.disk, c, enc, json, fileName, folder) ==
                                 if content.None? || IsEmptyText(json.serialize(content)) then None else content)
  {
    var s := SaveObject(d, c, enc, json, content, fileName, folder, now);
    if !IsBlank(c.tag) && GetAndCreatePath(d, c, folder, fileName).result.Ok? {
      var p := GetAndCreatePath(d, c, folder, fileName);
      WritableAfterCreate(d, c, folder, fileName);
      var path := Target(c, folder, fileName);
      if path in p.disk.files {
        assert CanDelete(p.disk, path);
      }
    }
    if s.result.Ok? {
      assert IsBlank("");
      DecodeSerialized(json, content);
    }
  }

  /** Saving null writes the text `null`; the file exists, and reading
      the object gives the default. A value serialized as `[]` (an empty
      list) reads back as the default too. */
  lemma SaveNullObject<T(!new)>(d: Disk, c: Config, enc: Encoding, json: Json<T>, content: Option<T>,
                                fileName: string, folder: string, now: DateTime)
    requires d.Valid() && enc.Lossless() && json.Lawful()
    requires content.None? || json.serialize(content) == "[]"
    requires CanSave(d, c, folder, fileName)
    ensures var s := SaveObject(d, c, enc, json, content, fileName, folder, now);
            && s.result.Ok?
            && ExistsFile(s.disk, c, fileName, folder) == Ok(true)
            && StoreSpec.ReadText(s.disk, c, enc, fileName, folder) == Ok(if content.None? then "null" else "[]")
            && ReadObject(s.disk, c, enc, json, fileName, folder) == None
  {
    SaveObjectRoundTrip(d, c, enc, json, content, fileName, folder, now);
  }

  /** After a successful GetAndCreatePath both the folder and the sandbox
      root exist. */
  lemma CreatedPathExists(d: Disk, c: Config, folder: string, fileName: string)
    requires d.Valid()
    requires GetAndCreatePath(d, c, folder, fileName).result.Ok?
    ensures var d1 := GetAndCreatePath(d, c, folder, fileName).disk;
            && ExistFolder(d1, c, folder) == Ok(true)
            && ExistSandbox(d1, c) == Ok(true)
  {
    var d1 := GetAndCreatePath(d, c, folder, fileName).disk;
    var dir := FolderOf(c, folder);
    var root := SandboxRoot(c);
    assert Ancestor(dir, |root|) == root;
  }

  // ------------------------------------------------------------------
  // Deletes
  // ------------------------------------------------------------------

  /** DeleteFileAsync always succeeds once the tag is set, the file is
      gone afterwards, and a second call changes nothing. */
  lemma DeleteFileRemovesFile(d: Disk, c: Config, fileName: string, folder: string)
    requires d.Valid() && !IsBlank(c.tag)
    ensures var s := StoreSpec.DeleteFile(d, c, fileName, folder);
            && s.result.Ok?
            && ExistsFile(s.disk, c, fileName, folder) == Ok(false)
            && (forall q | q != Target(c, folder, fileName) && q in d.files :: q in s.disk.files && s.disk.files[q] == d.files[q])
            && StoreSpec.DeleteFile(s.disk, c, fileName, folder) == s
  {
  }

  /** The private DeleteFolder removes the directory and everything below
      it, and nothing else; a path that is not a directory is left alone. */
  lemma DeleteFolderAtPrunes(d: Disk, path: Path)
    requires d.Valid()
    ensures var s := DeleteFolderAt(d, path);
            && s.result.Ok?
            && s.disk.files == (if path in d.dirs then PruneFiles(d.files, path) else d.files)
            && s.disk.dirs == (if path in d.dirs then PruneDirs(d.dirs, path) else d.dirs)
  {
    if path in d.dirs {
      var kids := Children(d, path);
      forall q | q in kids ensures CanDelete(d, q) {
        assert q in d.order;
      }
      PruneIgnoresChildren(d.files, DeleteEach(d, kids).disk.files, path);
    }
  }

  /** Deleting some of the files directly in `path` first makes no
      difference to what pruning `path` leaves. */
  lemma PruneIgnoresChildren(files: map<Path, FileEntry>, kept: map<Path, FileEntry>, path: Path)
    requires forall q | q in kept :: q in files && kept[q] == files[q]
    requires forall q | q in files && !IsChildOf(q, path) :: q in kept
    ensures PruneFiles(kept, path) == PruneFiles(files, path)
  {
    forall q ensures q in PruneFiles(kept, path) <==> q in PruneFiles(files, path) {
      if IsChildOf(q, path) {
        assert q[..|q| - 1] == path;
        assert path <= q;
      }
    }
  }

  /** Under a well-formed disk nothing lies strictly below a path that is
      not a directory. */
  lemma NothingBelowNonDirectory(d: Disk, p: Path, q: Path)
    requires d.Valid() && p !in d.dirs
    requires q in d.files || q in d.dirs
    ensures !(p < q)
  {
    var r := if q in d.dirs then q else Parent(q);
    assert r in d.dirs && r == q[..|r|] && |r| + 1 >= |q|;
    if |p| <= |r| {
      assert Ancestor(r, |p|) in d.dirs;
      assert Ancestor(r, |p|) != p;
    }
  }

  /** The private DeleteFolder on a path that is not a file: afterwards
      the path is no directory, nothing lies below it, everything else is
      untouched, and a second call changes nothing. */
  lemma DeleteFolderAtClears(d: Disk, path: Path)
    requires d.Valid()
    ensures var s := DeleteFolderAt(d, path);
            && s.result.Ok?
            && s.disk.Valid()
            && path !in s.disk.dirs
            && (forall q | q in s.disk.files :: !(path < q))
            && (forall q | q in d.files && !(path < q) :: q in s.disk.files && s.disk.files[q] == d.files[q])
            && DeleteFolderAt(s.disk, path) == Step(s.disk, Ok(()))
  {
    var s := DeleteFolderAt(d, path);
    DeleteFolderAtPrunes(d, path);
    if path !in d.dirs {
      forall q | q in s.disk.files ensures !(path < q) {
        NothingBelowNonDirectory(d, path, q);
      }
    } else {
      assert path !in s.disk.dirs by {
        assert path <= path;
      }
      forall q | q in d.files && !(path < q) ensures q in s.disk.files && s.disk.files[q] == d.files[q] {
        assert q != path;
      }
    }
  }

  /** DeleteFolderAsync with a name: the folder and everything in it are
      gone, everything outside it is untouched, and a second call changes
      nothing. */
  lemma DeleteFolderRemovesTree(d: Disk, c: Config, folderName: string)
    requires d.Valid() && !IsBlank(c.tag) && !IsBlank(folderName)
    ensures var s := DeleteFolder(d, c, folderName);
            var p := FolderOf(c, folderName);
            && s.result.Ok?
            && s.disk.Valid()
            && ExistNamedFolder(s.disk, c, folderName) == Ok(false)
            && (forall q | q in s.disk.files :: !(p < q))
            && (forall q | q in d.files && !(p < q) :: q in s.disk.files && s.disk.files[q] == d.files[q])
            && DeleteFolder(s.disk, c, folderName) == Step(s.disk, Ok(()))
  {
    DeleteFolderAtClears(d, FolderOf(c, folderName));
  }

  /** DeleteSandboxAsync: afterwards the sandbox does not exist and holds
      nothing; files outside it are untouched, and a second call changes
      nothing. */
  lemma DeleteSandboxRemovesAll(d: Disk, c: Config)
    requires d.Valid() && !IsBlank(c.tag)
    ensures var s := DeleteSandbox(d, c);
            var root := SandboxRoot(c);
            && s.result.Ok?
            && s.disk.Valid()
            && ExistSandbox(s.disk, c) == Ok(false)
            && (forall q | q in s.disk.files :: !(root < q))
            && (forall q | q in d.files && !(root < q) :: q in s.disk.files && s.disk.files[q] == d.files[q])
            && DeleteSandbox(s.disk, c) == Step(s.disk, Ok(()))
  {
    DeleteFolderAtClears(d, SandboxRoot(c));
  }

  /** DeleteFilesAsync: the files directly in the folder are gone, the
      folder and every directory stay, other files are untouched, and the
      listing of the folder is empty. */
  lemma DeleteFilesEmptiesFolder(d: Disk, c: Config, folder: string)
    requires d.Valid() && !IsBlank(c.tag)
    ensures var s := DeleteFiles(d, c, folder);
            var p := FolderOf(c, folder);
            && s.result.Ok?
            && s.disk.Valid()
            && s.disk.dirs == d.dirs
            && (forall q | q in s.disk.files :: !IsChildOf(q, p))
            && (forall q | q in d.files && !IsChildOf(q, p) :: q in s.disk.files && s.disk.files[q] == d.files[q])
            && GetFilesNames(s.disk, c, folder) == Ok([])
  {
    var p := FolderOf(c, folder);
    if p in d.dirs {
      ClearChildren(d, p);
    }
  }

  /** The delete loop over the files directly in a directory succeeds
      and leaves no file directly in it. */
  lemma ClearChildren(d: Disk, p: Path)
    requires d.Valid() && p in d.dirs
    ensures var s := DeleteEach(d, Children(d, p));
            && s.result.Ok?
            && (forall q | q in s.disk.order :: !IsChildOf(q, p))
  {
    var kids := Children(d, p);
    forall q | q in kids ensures CanDelete(d, q) {
      assert q in d.order;
    }
    var s := DeleteEach(d, kids);
    forall q | q in s.disk.files ensures !IsChildOf(q, p) {
      assert q in d.order;
    }
  }

  // ------------------------------------------------------------------
  // Freshness
  // ------------------------------------------------------------------

  /** With no folder, SetCacheCreation reaches the file the store saved:
      a time before the 1601 file-time epoch is refused; any other time is
      stored, GetCacheCreation then returns it, and the cache is recent
      exactly when that time plus the period is strictly later than now. */
  lemma FreshnessBoundary(d: Disk, c: Config, t: DateTime, fileName: string, period: TimeSpan, now: DateTime)
    requires !IsBlank(c.tag)
    requires Target(c, "", fileName) in d.files
    ensures t < FileTimeEpoch ==> SetCacheCreation(d, c, t, fileName, "") == Step(d, Err(OutOfRange))
    ensures FileTimeEpoch <= t ==>
            var s := SetCacheCreation(d, c, t, fileName, "");
            && s.result.Ok?
            && GetCacheCreation(s.disk, c, fileName, "") == Ok(t)
            && ExistRecentCache(s.disk, c, fileName, period, "", now) ==
               if 0 <= t + period <= MaxTicks then Ok(t + period > now) else Err(OutOfRange)
  {
    RootFileIsFolder(c, fileName);
  }

  /** The corrected setter and getter agree on every file: a time before
      the 1601 file-time epoch is refused and changes nothing; otherwise the
      getter returns what the setter stored, and only that file changes. */
  lemma CacheCreationRoundTrip(d: Disk, c: Config, t: DateTime, fileName: string, folder: string)
    requires !IsBlank(c.tag)
    requires Target(c, folder, fileName) in d.files
    ensures t < FileTimeEpoch ==> SetCacheCreationCorrected(d, c, t, fileName, folder) == Step(d, Err(OutOfRange))
    ensures FileTimeEpoch <= t ==>
            var s := SetCacheCreationCorrected(d, c, t, fileName, folder);
            && s.result.Ok?
            && GetCacheCreationCorrected(s.disk, c, fileName, folder) == Ok(t)
            && s.disk.files[Target(c, folder, fileName)].data == d.files[Target(c, folder, fileName)].data
            && s.disk.files - {Target(c, folder, fileName)} == d.files - {Target(c, folder, fileName)}
  {
  }

  /** With a folder, SetCacheCreation as written leaves the saved file's
      time alone (it addresses <root>/<fileName>/<folder>); when nothing is
      there it throws, and GetCacheCreation returns the 1601 epoch. */
  lemma SwappedCacheCreationMissesFile(d: Disk, c: Config, t: DateTime, fileName: string, folder: string)
    requires !IsBlank(c.tag) && !IsBlank(fileName) && !IsBlank(folder) && fileName != folder
    requires Target(c, folder, fileName) in d.files
    ensures var s := SetCacheCreation(d, c, t, fileName, folder);
            s.disk.files[Target(c, folder, fileName)] == d.files[Target(c, folder, fileName)]
    ensures Target(c, fileName, folder) !in d.files ==>
            && SetCacheCreation(d, c, t, fileName, folder).result == Err(if t < FileTimeEpoch then OutOfRange else IOFault)
            && GetCacheCreation(d, c, fileName, folder) == Ok(FileTimeEpoch)
  {
    var n := |SandboxRoot(c)|;
    assert Target(c, folder, fileName)[n] == folder;
    assert Target(c, fileName, folder)[n] == fileName;
  }

  // ------------------------------------------------------------------
  // Listing
  // ------------------------------------------------------------------

  /** Saving the given names, one after the other, as text files in one folder. */
  function SaveTexts(d: Disk, c: Config, enc: Encoding, text: string, names: seq<string>,
                     folder: string, now: DateTime): Step<()>
    decreases |names|
  {
    if names == [] then Step(d, Ok(()))
    else
      var s := SaveTexts(d, c, enc, text, names[..|names| - 1], folder, now);
      if s.result.Err? then s else SaveText(s.disk, c, enc, text, names[|names| - 1], folder, now)
  }

  /** The files of `dir` named by `names`, in that order. */
  function InFolder(dir: Path, names: seq<string>): (r: seq<Path>)
    ensures |r| == |names|
  {
    seq(|names|, i requires 0 <= i < |names| => dir + [names[i]])
  }

  /** A well-formed disk on which `dir` can be created, no directory lies
      below `dir`, and the listing of `dir` is the files named by `names`,
      in that order. */
  ghost predicate HoldsExactly(d: Disk, dir: Path, names: seq<string>) {
    && d.Valid()
    && CanCreate(d, dir)
    && (forall q | q in d.dirs :: !(dir < q))
    && Children(d, dir) == InFolder(dir, names)
  }

  /** A save that CanSave admits is GetAndCreatePath followed by a write
      of the encoded text that succeeds. */
  lemma SaveIsWrite(d: Disk, c: Config, enc: Encoding, text: string, n: string, folder: string, now: DateTime)
    requires d.Valid() && CanSave(d, c, folder, n)
    ensures var g := GetAndCreatePath(d, c, folder, n).disk;
            var w := WriteFile(g, Target(c, folder, n), enc.encode(text), now);
            && w.Ok?
            && SaveText(d, c, enc, text, n, folder, now) == Step(w.value, Ok(()))
  {
    SaveTextSucceeds(d, c, enc, text, n, folder, now);
  }

  /** One save of a new name into a folder succeeds, leaves the folder in
      place and appends the file to the folder's listing. */
  lemma SaveNewFile(d: Disk, c: Config, enc: Encoding, text: string, n: string, folder: string, now: DateTime)
    requires d.Valid() && CanSave(d, c, folder, n)
    requires Target(c, folder, n) !in d.files
    ensures var s := SaveText(d, c, enc, text, n, folder, now);
            var dir := FolderOf(c, folder);
            && s.result.Ok?
            && dir in s.disk.dirs
            && Children(s.disk, dir) == Children(d, dir) + [Target(c, folder, n)]
  {
    var dir := FolderOf(c, folder);
    var p := Target(c, folder, n);
    var g := GetAndCreatePath(d, c, folder, n).disk;
    var data := enc.encode(text);
    SaveIsWrite(d, c, enc, text, n, folder, now);
    assert Parent(p) == dir by {
      FileInFolder(c, folder, n);
    }
    assert Children(g, dir) == Children(d, dir);
    ChildrenAfterWrite(g, p, data, now, dir);
  }

  /** A name not yet listed is not yet a file of the folder. */
  lemma NewName(d: Disk, dir: Path, names: seq<string>, n: string)
    requires HoldsExactly(d, dir, names) && n !in names
    ensures dir + [n] !in d.files
  {
    var p := dir + [n];
    forall i | 0 <= i < |names| ensures InFolder(dir, names)[i] != p {
      assert names[i] != n;
      assert p[|dir|] == n;
    }
    assert p !in Children(d, dir);
    assert IsChildOf(p, dir);
  }

  lemma InFolderAppend(dir: Path, names: seq<string>, n: string)
    ensures InFolder(dir, names + [n]) == InFolder(dir, names) + [dir + [n]]
  {
  }

  /** A disk that differs from one holding `names` in `dir` only by the
      file `dir + [n]` and by directories on the way to `dir`, and whose
      listing of `dir` has grown by that file, holds `names + [n]`. */
  lemma HoldsAfterAdding(d: Disk, after: Disk, dir: Path, names: seq<string>, n: string)
    requires HoldsExactly(d, dir, names) && after.Valid()
    requires after.files - {dir + [n]} == d.files - {dir + [n]}
    requires d.dirs <= after.dirs <= d.dirs + Prefixes(dir)
    requires Children(after, dir) == InFolder(dir, names + [n])
    ensures HoldsExactly(after, dir, names + [n])
  {
    forall q | q in after.dirs ensures !(dir < q) {
      assert q in d.dirs || q in Prefixes(dir);
    }
    forall j | 0 <= j <= |dir| ensures dir[..j] !in after.files {
      assert |dir[..j]| < |dir + [n]| && dir[..j] !in d.files;
      assert dir[..j] !in after.files - {dir + [n]};
    }
  }

  /** One more save of a new name into such a folder appends that name. */
  lemma SaveOneMore(d: Disk, c: Config, enc: Encoding, text: string, names: seq<string>, n: string,
                    folder: string, now: DateTime)
    requires !IsBlank(c.tag) && !IsBlank(n) && n !in names
    requires HoldsExactly(d, FolderOf(c, folder), names)
    ensures var s := SaveText(d, c, enc, text, n, folder, now);
            && s.result.Ok?
            && HoldsExactly(s.disk, FolderOf(c, folder), names + [n])
            && FolderOf(c, folder) in s.disk.dirs
  {
    var dir := FolderOf(c, folder);
    var p := Target(c, folder, n);
    FileInFolder(c, folder, n);
    assert dir < p;
    NewName(d, dir, names, n);
    SaveNewFile(d, c, enc, text, n, folder, now);
    var after := SaveText(d, c, enc, text, n, folder, now).disk;
    InFolderAppend(dir, names, n);
    HoldsAfterAdding(d, after, dir, names, n);
  }

  lemma {:induction false} SaveTextsKeepsFolder(d: Disk, c: Config, enc: Encoding, text: string, names: seq<string>,
                                                folder: string, now: DateTime)
    requires !IsBlank(c.tag)
    requires HoldsExactly(d, FolderOf(c, folder), [])
    requires forall i | 0 <= i < |names| :: !IsBlank(names[i])
    requires forall i, j | 0 <= i < j < |names| :: names[i] != names[j]
    ensures var s := SaveTexts(d, c, enc, text, names, folder, now);
            && s.result.Ok?
            && HoldsExactly(s.disk, FolderOf(c, folder), names)
            && (names != [] ==> FolderOf(c, folder) in s.disk.dirs)
    decreases |names|
  {
    if names != [] {
      var k := |names| - 1;
      assert names[..k] + [names[k]] == names;
      SaveTextsKeepsFolder(d, c, enc, text, names[..k], folder, now);
      var dk := SaveTexts(d, c, enc, text, names[..k], folder, now).disk;
      LastIsNew(names);
      SaveOneMore(dk, c, enc, text, names[..k], names[k], folder, now);
    }
  }

  /** In a list without repetitions the last name is not among the others. */
  lemma LastIsNew(names: seq<string>)
    requires names != []
    requires forall i, j | 0 <= i < j < |names| :: names[i] != names[j]
    ensures names[|names| - 1] !in names[..|names| - 1]
  {
    var k := |names| - 1;
    forall i | 0 <= i < k ensures names[..k][i] != names[k] {
      assert names[i] != names[k];
    }
  }

  /** The leaf names of a folder's files are their names. */
  lemma LeafNamesInFolder(dir: Path, names: seq<string>)
    requires forall i | 0 <= i < |names| :: '/' !in names[i]
    ensures LeafNames(InFolder(dir, names)) == names
  {
    forall i | 0 <= i < |names| ensures LeafNames(InFolder(dir, names))[i] == names[i] {
      LeafNameOfRender(dir + [names[i]]);
    }
  }

  /** After saving N distinct names into a folder that held nothing, the
      listing of the folder is exactly those names, in save order. */
  lemma ListingAfterSaves(d: Disk, c: Config, enc: Encoding, text: string, names: seq<string>,
                          folder: string, now: DateTime)
    requires d.Valid() && !IsBlank(c.tag)
    requires CanCreate(d, FolderOf(c, folder))
    requires forall q | q in d.files || q in d.dirs :: !(FolderOf(c, folder) < q)
    requires forall i | 0 <= i < |names| :: !IsBlank(names[i]) && '/' !in names[i]
    requires forall i, j | 0 <= i < j < |names| :: names[i] != names[j]
    ensures var s := SaveTexts(d, c, enc, text, names, folder, now);
            s.result.Ok? && GetFilesNames(s.disk, c, folder) == Ok(names)
  {
    var dir := FolderOf(c, folder);
    assert forall q | q in d.order :: !IsChildOf(q, dir) by {
      forall q | q in d.order ensures !IsChildOf(q, dir) {
        assert q in d.files;
        assert IsChildOf(q, dir) ==> dir < q;
      }
    }
    assert HoldsExactly(d, dir, []);
    SaveTextsKeepsFolder(d, c, enc, text, names, folder, now);
    LeafNamesInFolder(dir, names);
  }
}
