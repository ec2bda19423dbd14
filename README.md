# FileService sandbox store — a Dafny model

FileService keeps an application's files under one *sandbox* folder that its
SandboxTag names. It offers these operations:

- save and read an object as indented JSON, a text or a byte array;
- check whether a file, a folder or the sandbox exists;
- list the file names of a folder;
- delete one file, every file of a folder, a folder, or the whole sandbox;
- answer whether a cached file is still fresh.

Every path is the sandbox root, then the folder, then the file name. A blank
folder or file name is skipped. A blank SandboxTag is refused before the
disk is touched.

Three variants are modelled:

- **The newer plugin base** (`Plugin.FileService.Shared/FileServiceBase.cs`):
  - the sandbox root is `<documents>/Plugin.FileService.<tag>`;
  - freshness is the last-write time plus a TimeSpan;
  - the texts `null`, `[]` and blank read back as the default value.
- **The legacy plugin base** (`Plugin.FileService/FileServiceBase.cs`):
  - it shares most bodies with the newer base;
  - it reads `{}` and blank texts as the default value, not `[]` and `null`;
  - freshness is the *creation* time plus an `int` number of hours;
  - DeleteFolderAsync, SaveFileAsync and SaveFileTemporalAsync have their own bodies.
- **The NetStandard service** (`FileServiceImplementation.cs`):
  - the sandbox root is `<rootFolder>/BiT21.FileService/<tag>`;
  - the SandboxTag can be written only once;
  - the constructor creates the sandbox folder;
  - it also has test hooks that set and get a file's timestamp.

How the model is layered:

- **Disk** (`DiskModel`): the files (bytes plus creation and last-write
  times), the directories, and the order in which files were created. Its
  primitives are the platform adapter's File.* and Directory.* calls,
  including their failure cases.
- **Spec functions** (`StoreSpec`, `LegacySpec`, `NetStandard`): each
  operation is a function from a disk to a `Step`, the new disk together with
  the result. A thrown exception is an `Err` result.
- **Procedures** (`Store`, `LegacyStore`, the `FileServiceImplementation`
  class): each operation is a method over a mutable `Platform.FileSystem`
  object. Each method is proved to leave the object in exactly the state that
  its spec function gives. The one loop of the source, the per-file deletion,
  is a `while` loop with its invariant.
- **Properties** (`StoreProperties`, `LegacyProperties`): lemmas that relate
  the operations to each other.
  - Round trips: save then read, save then exists.
  - Deletes: each one removes exactly its tree and is idempotent.
  - Listing: it returns, in order, the names saved in order.
  - Freshness: the boundary of ExistRecentCache.
  - Disk validity: every operation preserves the disk's well-formedness
    (`Disk.Valid`).

The JSON engine (`Json`, assumed `Lawful`: deserialising a serialisation gives
the value back) and the text encoding (`Encoding`, assumed `Lossless`) are
parameters. The clock (`now`) and the platform's current directory (`cwd`)
are parameters too.

## Model

The DiskModel and Clock rows are the base model of the platform calls and of .NET date arithmetic. Their contracts describe what those calls do, and the store lemmas build on them. They are not claims about FileService itself.

StoreProperties.SaveTexts, StoreProperties.HoldsExactly and
StoreProperties.LastIsNew are proof helpers and have no rows. SaveTexts
is the save loop of src.NetStandard/FileService.Core.Test/FileServiceTest.cs
(lines 281-282), which the rows for SaveTextsKeepsFolder and
ListingAfterSaves use. HoldsExactly is the induction hypothesis of those lemmas.
LastIsNew is a fact about lists without repetitions.

| member | source | states |
|---|---|---|
| Text.LeafName | src/FileService/Plugin.FileService.Shared/FileServiceBase.cs:260 | the name is the longest suffix without '/', and the character before it, if any, is '/' |
| Text.LeafNameAfterSlash | src/FileService/Plugin.FileService.Shared/FileServiceBase.cs:260 | splitting `prefix/name` on '/' and taking the last piece gives `name` back |
| Text.LeafNameOfRender | src/FileService/Plugin.FileService.Shared/FileServiceBase.cs:260 | the last piece of a rendered path is its last segment |
| Clock.AddSpan | src/FileService/Plugin.FileService.Shared/FileServiceBase.cs:158 | `DateTime + TimeSpan` succeeds iff the sum stays in the DateTime tick range, and it is then the sum |
| Clock.Hours | src/FileService/Plugin.FileService/FileServiceBase.cs:154 | `new TimeSpan(hours, 0, 0)` succeeds iff the seconds fit a TimeSpan, and it is then `hours` hours of ticks |
| DiskModel.Commit | src/FileService/Plugin.FileService.Shared/FileServiceBase.cs:466-580 | a failed primitive leaves the disk unchanged; a successful one installs its new disk |
| DiskModel.Filter | src/FileService/Plugin.FileService.Shared/FileServiceBase.cs:567 | keeps exactly the members that pass, in order, and keeps them distinct |
| DiskModel.FilterAppend | src/FileService/Plugin.FileService.Shared/FileServiceBase.cs:567 | filtering a list with one more path at the end adds that path at the end when it passes |
| DiskModel.Children | src/FileService/Plugin.FileService.Shared/FileServiceBase.cs:567 | Directory.GetFiles lists exactly the files directly inside the folder |
| DiskModel.WriteFile | src/FileService/Plugin.FileService.Shared/FileServiceBase.cs:480 | File.WriteAllBytes succeeds iff the parent exists and the path is not a directory. It stores the bytes with a last-write time of `now`. The model keeps the creation time of a file it overwrites (see Left out). Nothing else changes |
| DiskModel.DeleteFile | src/FileService/Plugin.FileService.Shared/FileServiceBase.cs:527 | File.Delete fails only on a directory, or on a missing file whose parent directory is missing. Otherwise it removes exactly that file |
| DiskModel.CreateDirectory | src/FileService/Plugin.FileService.Shared/FileServiceBase.cs:540 | Directory.CreateDirectory succeeds iff no prefix of the path is a file, and adds every prefix as a directory |
| DiskModel.PruneFiles | src/FileService/Plugin.FileService.Shared/FileServiceBase.cs:574 | keeps exactly the files not inside the tree, with their entries |
| DiskModel.PruneDirs | src/FileService/Plugin.FileService.Shared/FileServiceBase.cs:574 | keeps exactly the directories not inside the tree |
| DiskModel.DeleteDirectory | src/FileService/Plugin.FileService.Shared/FileServiceBase.cs:574 | a recursive Directory.Delete succeeds iff the directory exists, and removes its whole tree |
| DiskModel.SetLastWriteTime | src/FileService/Plugin.FileService.Shared/FileServiceBase.cs:473 | a time before the 1601 file-time epoch gives OutOfRange. Otherwise it succeeds iff the file exists, and changes only that file's last-write time |
| DiskModel.ReadFile | src/FileService/Plugin.FileService.Shared/FileServiceBase.cs:493 | File.ReadAllBytes succeeds iff the file exists, and returns its bytes |
| DiskModel.GetFiles | src/FileService/Plugin.FileService.Shared/FileServiceBase.cs:567 | Directory.GetFiles succeeds iff the directory exists |
| DiskModel.ChildrenAfterWrite | src/FileService/Plugin.FileService.Shared/FileServiceBase.cs:480 | after a write, a folder lists what it listed before, plus the file at the end if it is new and inside the folder |
| Sandbox.GetPath | src/FileService/Plugin.FileService.Shared/FileServiceBase.cs:304-316 | fails with SandboxTagMissing iff the tag is blank. Otherwise the path starts at the sandbox root and adds one segment per non-blank folder and file name, folder first |
| Sandbox.SandboxRoot | src/FileService/Plugin.FileService.Shared/FileServiceBase.cs:309 | the sandbox root lies one segment below the documents folder, and that segment is `Plugin.FileService.` plus the tag. In the BiT21 layout it lies two segments below the root folder, `BiT21.FileService` then the tag (src.NetStandard/FileService.NetStandard20/Service/FileServiceImplementation.cs:366) |
| Sandbox.FileInFolder | src/FileService/Plugin.FileService.Shared/FileServiceBase.cs:318-326 | the file path is the folder path that GetAndCreatePath creates, plus the file name |
| Sandbox.RootFileIsFolder | src/FileService/Plugin.FileService.Shared/FileServiceBase.cs:311-313 | a name given as the file of the root folder and the same name given as a folder make the same path |
| Sandbox.SandboxesDisjoint | src/FileService/Plugin.FileService.Shared/FileServiceBase.cs:309 | with the same layout, no path of one tag falls inside the sandbox of another tag, for tags that are single segments (no separator, not `.` or `..`) |
| ObjectCodec.DecodeSerialized | src/FileService/Plugin.FileService.Shared/FileServiceBase.cs:58-66 | what SaveObjectFileAsync serialises reads back as the same value, except that null and a value whose text is blank, `[]` or `null` read back as the default value |
| ObjectCodec.DecodeSerializedLegacy | src/FileService/Plugin.FileService/FileServiceBase.cs:55-63 | the same for the legacy policy, where a `{}` text reads back as the default value |
| Platform.FileSystem.constructor | src/FileService/Plugin.FileService.Shared/FileServiceBase.cs:459-580 | the file system starts in the given disk state with the given encoding |
| Platform.FileSystem.Apply | src/FileService/Plugin.FileService.Shared/FileServiceBase.cs:466-580 | installs a primitive's outcome as in Commit |
| Platform.FileSystem.FileExists | src/FileService/Plugin.FileService.Shared/FileServiceBase.cs:534 | File.Exists is true exactly when File.ReadAllBytes on the path would succeed |
| Platform.FileSystem.DirectoryExists | src/FileService/Plugin.FileService.Shared/FileServiceBase.cs:547 | Directory.Exists is true exactly when Directory.GetFiles on the path would succeed |
| Platform.FileSystem.GetFiles | src/FileService/Plugin.FileService.Shared/FileServiceBase.cs:567 | lists exactly the files directly inside the directory. For an existing directory it is what DiskModel.GetFiles returns |
| Platform.FileSystem.WriteAllBytes | src/FileService/Plugin.FileService.Shared/FileServiceBase.cs:480 | the new state is DiskModel.WriteFile's |
| Platform.FileSystem.WriteAllText | src/FileService/Plugin.FileService.Shared/FileServiceBase.cs:521 | the new state is that of writing the encoded text |
| Platform.FileSystem.Delete | src/FileService/Plugin.FileService.Shared/FileServiceBase.cs:527 | the new state is DiskModel.DeleteFile's |
| Platform.FileSystem.CreateDirectory | src/FileService/Plugin.FileService.Shared/FileServiceBase.cs:540 | the new state is DiskModel.CreateDirectory's |
| Platform.FileSystem.DeleteDirectory | src/FileService/Plugin.FileService.Shared/FileServiceBase.cs:574 | the new state is DiskModel.DeleteDirectory's |
| Platform.FileSystem.SetLastWriteTime | src/FileService/Plugin.FileService.Shared/FileServiceBase.cs:473 | the new state is DiskModel.SetLastWriteTime's |
| StoreSpec.RootPath | src/FileService/Plugin.FileService.Shared/FileServiceBase.cs:241-250 | the folder of a blank folder name is the sandbox root |
| StoreSpec.GetFullPath | src/FileService/Plugin.FileService.Shared/FileServiceBase.cs:210-213 | fails iff the tag is blank. Otherwise it is the sandbox root, plus the folder when the folder is not blank |
| StoreSpec.GetAndCreatePath | src/FileService/Plugin.FileService.Shared/FileServiceBase.cs:318-326 | fails on a blank tag without touching the disk. Otherwise it succeeds iff the folder can be created. On success it returns GetPath and the folder exists. It adds only prefixes of the folder as directories and never touches files |
| StoreSpec.ExistsFile | src/FileService/Plugin.FileService.Shared/FileServiceBase.cs:328-347 | false for an empty name. Otherwise true iff the target is a file |
| StoreSpec.ExistFolder | src/FileService/Plugin.FileService.Shared/FileServiceBase.cs:349-354 | fails iff the tag is blank. Otherwise true iff the folder is a directory |
| StoreSpec.ExistNamedFolder | src/FileService/Plugin.FileService.Shared/FileServiceBase.cs:227-239 | false for a blank folder name. Otherwise it fails with SandboxTagMissing iff the tag is blank, and is true iff the folder is a directory |
| StoreSpec.ExistSandbox | src/FileService/Plugin.FileService.Shared/FileServiceBase.cs:241-250 | fails with SandboxTagMissing iff the tag is blank. Otherwise true iff the sandbox root is a directory |
| StoreSpec.SaveObject | src/FileService/Plugin.FileService.Shared/FileServiceBase.cs:24-43 | on success the target holds the encoded serialisation, with creation and last-write time `now`. Only the target and the folder's prefixes change |
| StoreSpec.ReadObject | src/FileService/Plugin.FileService.Shared/FileServiceBase.cs:45-83 | the default value for an empty name, a missing file or any failure. Otherwise the decoded text under the `null`/`[]`/blank policy |
| StoreSpec.SaveText | src/FileService/Plugin.FileService.Shared/FileServiceBase.cs:291-300 | on success the target holds the encoded text, last written `now`. Only the target and the folder's prefixes change |
| StoreSpec.ReadText | src/FileService/Plugin.FileService.Shared/FileServiceBase.cs:268-289 | the empty string for a missing file. Otherwise the decoded contents |
| StoreSpec.SaveBytes | src/FileService/Plugin.FileService.Shared/FileServiceBase.cs:170-181 | on success the target holds the bytes, last written `now`. Only the target and the folder's prefixes change |
| StoreSpec.ReadBytes | src/FileService/Plugin.FileService.Shared/FileServiceBase.cs:183-208 | some bytes iff the target is a file, and then exactly its bytes |
| StoreSpec.LeafNames | src/FileService/Plugin.FileService.Shared/FileServiceBase.cs:260 | one name per path, none containing '/'. Where a path's last segment holds no '/', the name is that segment |
| StoreSpec.LeafNamesOfRenders | src/FileService/Plugin.FileService.Shared/FileServiceBase.cs:260 | for every path whose last segment holds no '/', splitting its text on '/' gives that segment last |
| StoreSpec.GetFilesNames | src/FileService/Plugin.FileService.Shared/FileServiceBase.cs:252-266 | fails iff the tag is blank. Empty for a missing folder. Otherwise one name per file directly inside the folder, in listing order, and each name is the segment that file adds to the folder path, for paths rendered with '/' |
| StoreSpec.DeleteEach | src/FileService/Plugin.FileService.Shared/FileServiceBase.cs:94-100 | the foreach deletes only listed files and keeps every other file. On success none of the listed files is left. It cannot fail on files that can be deleted |
| StoreSpec.DeleteFolderAt | src/FileService/Plugin.FileService.Shared/FileServiceBase.cs:356-370 | a missing folder is a no-op. Otherwise it only removes files and keeps the disk valid |
| StoreSpec.DeleteFiles | src/FileService/Plugin.FileService.Shared/FileServiceBase.cs:85-103 | only files directly inside the folder are removed. Directories are kept |
| StoreSpec.DeleteFile | src/FileService/Plugin.FileService.Shared/FileServiceBase.cs:105-118 | always succeeds on a valid disk with a tag, and removes exactly the target |
| StoreSpec.DeleteFolder | src/FileService/Plugin.FileService.Shared/FileServiceBase.cs:120-132 | a blank name gives FolderNameMissing, then a blank tag gives SandboxTagMissing. Otherwise it deletes the folder's tree |
| StoreSpec.DeleteSandbox | src/FileService/Plugin.FileService.Shared/FileServiceBase.cs:134-143 | deletes the sandbox root's tree |
| StoreSpec.ExistRecentCache | src/FileService/Plugin.FileService.Shared/FileServiceBase.cs:145-168 | false for a missing file. Otherwise whether last-write plus the period is strictly after `now`, or OutOfRange when the sum leaves the DateTime range |
| StoreSpec.SetCacheCreation | src/FileService/Plugin.FileService.Shared/FileServiceBase.cs:381-388 | as written: sets the last-write time of the path built with the file name as folder and the folder as file name |
| StoreSpec.GetCacheCreation | src/FileService/Plugin.FileService.Shared/FileServiceBase.cs:396-407 | as written: the last-write time of that swapped path, which is the file-time epoch for a missing file |
| StoreSpec.SetCacheCreationCorrected | src/FileService/Plugin.FileService.Shared/FileServiceBase.cs:381-388 | a time before the 1601 file-time epoch gives OutOfRange and changes nothing. Otherwise it succeeds iff the target exists, and changes only its last-write time |
| StoreSpec.GetCacheCreationCorrected | src/FileService/Plugin.FileService.Shared/FileServiceBase.cs:396-407 | the target's last-write time, or the file-time epoch when it is missing |
| Store.GetAndCreatePath | src/FileService/Plugin.FileService.Shared/FileServiceBase.cs:318-326 | the file system ends exactly in StoreSpec.GetAndCreatePath's state, with its result |
| Store.SaveObject | src/FileService/Plugin.FileService.Shared/FileServiceBase.cs:24-43 | the same, for StoreSpec.SaveObject: delete if present, then write |
| Store.SaveText | src/FileService/Plugin.FileService.Shared/FileServiceBase.cs:291-300 | the same, for StoreSpec.SaveText |
| Store.SaveBytes | src/FileService/Plugin.FileService.Shared/FileServiceBase.cs:170-181 | the same, for StoreSpec.SaveBytes |
| Store.DeleteEach | src/FileService/Plugin.FileService.Shared/FileServiceBase.cs:363-367 | the loop over the listed files ends in StoreSpec.DeleteEach's state |
| Store.DeleteFiles | src/FileService/Plugin.FileService.Shared/FileServiceBase.cs:85-103 | the same, for StoreSpec.DeleteFiles |
| Store.DeleteFile | src/FileService/Plugin.FileService.Shared/FileServiceBase.cs:105-118 | the same, for StoreSpec.DeleteFile |
| Store.DeleteFolderAt | src/FileService/Plugin.FileService.Shared/FileServiceBase.cs:356-370 | the same, for StoreSpec.DeleteFolderAt |
| Store.DeleteFolder | src/FileService/Plugin.FileService.Shared/FileServiceBase.cs:120-132 | the same, for StoreSpec.DeleteFolder |
| Store.DeleteSandbox | src/FileService/Plugin.FileService.Shared/FileServiceBase.cs:134-143 | the same, for StoreSpec.DeleteSandbox |
| Store.SetCacheCreation | src/FileService/Plugin.FileService.Shared/FileServiceBase.cs:381-388 | the same, for StoreSpec.SetCacheCreation as written |
| StoreProperties.WritableAfterCreate | src/FileService/Plugin.FileService.Shared/FileServiceBase.cs:318-326 | after GetAndCreatePath the returned path can be written unless it names a directory |
| StoreProperties.SaveTextSucceeds | src/FileService/Plugin.FileService.Shared/FileServiceBase.cs:291-300 | SaveTextFileAsync succeeds exactly when the folder can be created and the target is not a directory |
| StoreProperties.SaveTextRoundTrip | src/FileService/Plugin.FileService.Shared/FileServiceBase.cs:268-300 | ReadTextFileAsync returns the text that SaveTextFileAsync saved |
| StoreProperties.SaveBytesRoundTrip | src/FileService/Plugin.FileService.Shared/FileServiceBase.cs:170-208 | ReadByteFileAsync returns the bytes that SaveByteFileAsync saved, and the save succeeds iff the target can be saved |
| StoreProperties.SaveObjectRoundTrip | src/FileService/Plugin.FileService.Shared/FileServiceBase.cs:24-83 | after SaveObjectFileAsync the file exists, and ReadObjectFileAsync returns the value unless it was null or serialises to `[]` |
| StoreProperties.SaveNullObject | src/FileService/Plugin.FileService.Shared/FileServiceBase.cs:37-61 | saving null stores the text `null`. That text, like `[]`, reads back as the default value although the file exists |
| StoreProperties.CreatedPathExists | src/FileService/Plugin.FileService.Shared/FileServiceBase.cs:318-354 | after GetAndCreatePath both the folder and the sandbox exist |
| StoreProperties.DeleteFileRemovesFile | src/FileService/Plugin.FileService.Shared/FileServiceBase.cs:105-118 | the file no longer exists, every other file is untouched, and a second delete changes nothing |
| StoreProperties.DeleteFolderAtPrunes | src/FileService/Plugin.FileService.Shared/FileServiceBase.cs:356-370 | deleting the listed files first and then the directory leaves what a recursive directory delete alone leaves |
| StoreProperties.PruneIgnoresChildren | src/FileService/Plugin.FileService.Shared/FileServiceBase.cs:363-368 | removing some of a folder's direct files before pruning its tree does not change the result |
| StoreProperties.NothingBelowNonDirectory | src/FileService/Plugin.FileService.Shared/FileServiceBase.cs:360 | on a valid disk nothing lies strictly inside a path that is not a directory |
| StoreProperties.DeleteFolderAtClears | src/FileService/Plugin.FileService.Shared/FileServiceBase.cs:356-370 | the folder and everything inside it are gone, every file outside is kept, and a second delete is a no-op |
| StoreProperties.DeleteFolderRemovesTree | src/FileService/Plugin.FileService.Shared/FileServiceBase.cs:120-132 | DeleteFolderAsync removes the named folder's tree only, after which ExistFolderAsync is false. It is idempotent |
| StoreProperties.DeleteSandboxRemovesAll | src/FileService/Plugin.FileService.Shared/FileServiceBase.cs:134-143 | DeleteSandboxAsync removes the whole sandbox and nothing outside it, after which ExistSandBoxAsync is false. It is idempotent |
| StoreProperties.DeleteFilesEmptiesFolder | src/FileService/Plugin.FileService.Shared/FileServiceBase.cs:85-103 | DeleteFilesAsync removes exactly the files directly inside the folder, keeps every directory, and leaves an empty listing |
| StoreProperties.ClearChildren | src/FileService/Plugin.FileService.Shared/FileServiceBase.cs:93-100 | deleting every file that Directory.GetFiles lists succeeds and leaves no direct file |
| StoreProperties.FreshnessBoundary | src/FileService/Plugin.FileService.Shared/FileServiceBase.cs:145-168 | stamping a root file with a time before 1601 fails with OutOfRange. After stamping it with any other time t, ExistRecentCacheAsync is true iff t + period > now |
| StoreProperties.CacheCreationRoundTrip | src/FileService/Plugin.FileService.Shared/FileServiceBase.cs:381-407 | a time before 1601 is refused and changes nothing. Otherwise the corrected getter returns what the corrected setter stored, and the contents are unchanged |
| StoreProperties.SwappedCacheCreationMissesFile | src/FileService/Plugin.FileService.Shared/FileServiceBase.cs:385 | with both names set, the setter as written does not touch the real file. When the swapped path is missing, the setter fails (IOFault, or OutOfRange before 1601) and the getter returns the epoch |
| StoreProperties.InFolder | src/FileService/Plugin.FileService.Shared/FileServiceBase.cs:313 | one path per name, each inside the folder |
| StoreProperties.SaveIsWrite | src/FileService/Plugin.FileService.Shared/FileServiceBase.cs:291-300 | a save that can succeed is the folder creation followed by one successful write |
| StoreProperties.SaveNewFile | src/FileService/Plugin.FileService.Shared/FileServiceBase.cs:291-300 | saving a new name appends exactly that file to the folder's listing |
| StoreProperties.NewName | src/FileService/Plugin.FileService.Shared/FileServiceBase.cs:311-313 | a name not yet saved in a folder that holds only saved names is not a file there |
| StoreProperties.InFolderAppend | src/FileService/Plugin.FileService.Shared/FileServiceBase.cs:313 | the paths of one more name are the old paths plus the new one |
| StoreProperties.HoldsAfterAdding | src/FileService/Plugin.FileService.Shared/FileServiceBase.cs:291-300 | a folder that held exactly the saved names holds exactly those names plus one after a write of that one |
| StoreProperties.SaveOneMore | src/FileService/Plugin.FileService.Shared/FileServiceBase.cs:291-300 | saving a fresh name into a folder that holds exactly the saved names keeps that invariant |
| StoreProperties.SaveTextsKeepsFolder | src/FileService/Plugin.FileService.Shared/FileServiceBase.cs:291-300 | saving distinct non-blank names one by one into an empty folder succeeds and leaves exactly those files, in order |
| StoreProperties.LeafNamesInFolder | src/FileService/Plugin.FileService.Shared/FileServiceBase.cs:260 | the leaf names of a folder's paths are the names themselves |
| StoreProperties.ListingAfterSaves | src/FileService/Plugin.FileService.Shared/FileServiceBase.cs:252-300 | GetFilesNamesAsync after saving distinct names into an empty folder returns exactly those names in saving order, for paths rendered with '/' |
| LegacySpec.ReadObject | src/FileService/Plugin.FileService/FileServiceBase.cs:42-80 | the default value for an empty name, a missing file or a failure. Otherwise the decoded text under the `{}`/blank policy |
| LegacySpec.ExistRecentCache | src/FileService/Plugin.FileService/FileServiceBase.cs:142-164 | false for a missing file. Otherwise whether creation time plus `cacheTime` hours is strictly after `now`, or OutOfRange when the span or the sum overflows |
| LegacySpec.DeleteFolderAsWritten | src/FileService/Plugin.FileService/FileServiceBase.cs:117-129 | a blank name gives FolderNameMissing and a blank tag SandboxTagMissing. Otherwise it deletes the bare name resolved against the current directory, not the sandbox folder |
| LegacySpec.SaveFileAsWritten | src/FileService/Plugin.FileService/FileServiceBase.cs:166-182 | with a folder it is SaveByteFileAsync. With a blank folder it fails and writes no file |
| LegacySpec.TempTarget | src/FileService/Plugin.FileService/FileServiceBase.cs:188-189 | Path.Combine(temp, name): the temp folder itself for an empty name, otherwise a path whose parent is the temp folder and whose last segment is the name |
| LegacySpec.SaveFileTemporal | src/FileService/Plugin.FileService/FileServiceBase.cs:184-200 | a null name fails. An empty name, or one naming a directory, does nothing. Otherwise the bytes are written into the temp folder, and only that file changes |
| LegacyStore.DeleteFolder | src/FileService/Plugin.FileService/FileServiceBase.cs:117-129 | the file system ends exactly in DeleteFolderAsWritten's state, with its result |
| LegacyStore.SaveFile | src/FileService/Plugin.FileService/FileServiceBase.cs:166-182 | the same, for SaveFileAsWritten |
| LegacyStore.SaveFileTemporal | src/FileService/Plugin.FileService/FileServiceBase.cs:184-200 | the same, for LegacySpec.SaveFileTemporal |
| LegacyProperties.SaveObjectReadsBack | src/FileService/Plugin.FileService/FileServiceBase.cs:21-80 | the legacy read returns the saved value unless it was null or serialises to `{}` |
| LegacyProperties.ReadPoliciesDiffer | src/FileService/Plugin.FileService/FileServiceBase.cs:55 | a stored `[]` is the default value for the newer base but is parsed by the legacy base. A stored `{}` is the other way round |
| LegacyProperties.RewriteKeepsFreshness | src/FileService/Plugin.FileService/FileServiceBase.cs:142-182 | SaveFileAsync over an existing file succeeds iff the folder is non-blank. Either way the legacy freshness answer does not change: an overwrite keeps the creation time, and a refused save changes no file |
| LegacyProperties.OverwriteKeepsCreation | src/FileService/Plugin.FileService/FileServiceBase.cs:166-182 | SaveFileAsync over an existing file, with a non-blank folder, succeeds and keeps that file's creation time |
| LegacyProperties.RecentFromCreation | src/FileService/Plugin.FileService/FileServiceBase.cs:152-154 | within range, the answer is whether creation plus the hours is after `now` |
| LegacyProperties.FreshnessBoundary | src/FileService/Plugin.FileService/FileServiceBase.cs:142-182 | SaveFileAsync of a new file succeeds iff the folder is non-blank. The file is then fresh at `later` iff later < now + cacheTime hours; after a refused save it is not fresh |
| LegacyProperties.DeleteFolderMissesSandboxFolder | src/FileService/Plugin.FileService/FileServiceBase.cs:124-126 | when the sandbox folder exists and the bare name does not, DeleteFolderAsync succeeds and the sandbox folder still exists |
| LegacyProperties.DeleteFolderReachesWorkingDirectory | src/FileService/Plugin.FileService/FileServiceBase.cs:126 | DeleteFolderAsync removes the tree of that name under the current directory |
| LegacyProperties.SaveFileWithoutFolderFails | src/FileService/Plugin.FileService/FileServiceBase.cs:172-179 | with a blank folder SaveFileAsync fails and ReadByteFileAsync still sees the old contents, whereas SaveByteFileAsync stores the bytes |
| LegacyProperties.SaveFileTemporalWrites | src/FileService/Plugin.FileService/FileServiceBase.cs:184-200 | a name under an existing temp folder is written, the bytes read back, and nothing else changes |
| NetStandard.SetTag | src.NetStandard/FileService.NetStandard20/Service/FileServiceImplementation.cs:34-41 | the setter succeeds iff the current tag is blank, and then stores the new value. Otherwise it fails with SandboxTagAlreadySet |
| NetStandard.SetTags | src.NetStandard/FileService.NetStandard20/Service/FileServiceImplementation.cs:34-41 | after a run of setter calls the tag is the starting tag or one of the values written. It is blank only if the starting tag and every value written were blank |
| NetStandard.TagIsWriteOnce | src.NetStandard/FileService.NetStandard20/Service/FileServiceImplementation.cs:34-41 | once the tag is set, no sequence of writes changes it |
| NetStandard.FirstTagWins | src.NetStandard/FileService.NetStandard20/Service/FileServiceImplementation.cs:34-41 | starting blank, the first non-blank value written is the final tag |
| NetStandard.ReadByteFile | src.NetStandard/FileService.NetStandard20/Service/FileServiceImplementation.cs:236-262 | some bytes iff the tag is set and the target is a file, and then exactly its bytes. A missing tag is caught |
| NetStandard.ReadByteFileAfterSave | src.NetStandard/FileService.NetStandard20/Service/FileServiceImplementation.cs:223-262 | the bytes saved read back. With a blank tag the save fails and the read gives nothing |
| NetStandard.FileServiceImplementation.constructor | src.NetStandard/FileService.NetStandard20/Service/FileServiceImplementation.cs:18-19 | the object holds the given tag, root folder and file system |
| NetStandard.FileServiceImplementation.SandboxTag | src.NetStandard/FileService.NetStandard20/Service/FileServiceImplementation.cs:25-33 | the getter fails iff the tag is blank, and otherwise returns it |
| NetStandard.FileServiceImplementation.SetSandboxTag | src.NetStandard/FileService.NetStandard20/Service/FileServiceImplementation.cs:34-41 | the object's tag changes exactly as SetTag says. A refused write leaves it unchanged |
| NetStandard.FileServiceImplementation.Create | src.NetStandard/FileService.NetStandard20/Service/FileServiceImplementation.cs:58-75 | creates the sandbox root under `rootFolder/BiT21.FileService` and returns a fresh service. Any failure becomes InvalidSandbox. On success the tag is non-blank and the root exists |
| NetStandard.FileServiceImplementation.SaveObjectFile | src.NetStandard/FileService.NetStandard20/Service/FileServiceImplementation.cs:77-96 | ends in StoreSpec.SaveObject's state under the BiT21 layout |
| NetStandard.FileServiceImplementation.SaveTextFile | src.NetStandard/FileService.NetStandard20/Service/FileServiceImplementation.cs:348-357 | ends in StoreSpec.SaveText's state under the BiT21 layout |
| NetStandard.FileServiceImplementation.SaveByteFile | src.NetStandard/FileService.NetStandard20/Service/FileServiceImplementation.cs:223-234 | ends in StoreSpec.SaveBytes's state under the BiT21 layout |
| NetStandard.FileServiceImplementation.DeleteFiles | src.NetStandard/FileService.NetStandard20/Service/FileServiceImplementation.cs:138-156 | ends in StoreSpec.DeleteFiles's state under the BiT21 layout |
| NetStandard.FileServiceImplementation.DeleteFile | src.NetStandard/FileService.NetStandard20/Service/FileServiceImplementation.cs:158-171 | ends in StoreSpec.DeleteFile's state under the BiT21 layout |
| NetStandard.FileServiceImplementation.DeleteFolder | src.NetStandard/FileService.NetStandard20/Service/FileServiceImplementation.cs:173-185 | ends in StoreSpec.DeleteFolder's state under the BiT21 layout |
| NetStandard.FileServiceImplementation.DeleteSandbox | src.NetStandard/FileService.NetStandard20/Service/FileServiceImplementation.cs:187-196 | ends in StoreSpec.DeleteSandbox's state under the BiT21 layout |
| NetStandard.FileServiceImplementation.SetCacheCreation | src.NetStandard/FileService.NetStandard20/Service/FileServiceImplementation.cs:437-444 | ends in the as-written StoreSpec.SetCacheCreation's state, with the swapped arguments |

The legacy base shares several operations with the newer base, and so does
the NetStandard service. For these, the StoreSpec function under the
matching layout is the model of all the copies:

- In src/FileService/Plugin.FileService/FileServiceBase.cs: GetPath
  (296-308), GetAndCreatePath (310-318), FileExist (320-341), DeleteFolder
  (342-356), SaveObjectFileAsync (21-40), DeleteFilesAsync (82-100),
  DeleteFileAsync (102-115), DeleteSandbox (131-140), ReadByteFileAsync
  (202-227), GetFullPath (229-232), FileExistAsync (234-244),
  GetFilesNamesAsync (246-260), ReadTextFileAsync (262-283) and
  SaveTextFileAsync (285-294).
- In FileServiceImplementation.cs: GetPath (361-373), GetAndCreatePath,
  ExistsFile, ExistFolder, DeleteFolder, ReadObjectFileAsync, the Exist*
  operations, GetFilesNamesAsync, ReadTextFileAsync, ExistRecentCacheAsync
  and GetCacheCreation. The service's read-only operations change nothing,
  so they are these functions applied to `Configuration()`; they are not
  repeated as class methods.

## Left out

- Path.Combine and Path.GetFullPath normalisation. A join is segment
  concatenation, and a folder or file name is one relative segment. The
  model does not cover rooted names, names containing '/', '\\' or '..',
  or the platform separator. So it proves no claim that every path stays
  inside the sandbox. The same holds for the SandboxTag.
- Sandbox.SandboxesDisjoint: only tags that are one segment (no '/' or
  '\\', not "." or "..") are covered. A tag "a/b" nests inside the sandbox
  of tag "a", and ".." escapes it through GetFullPath. Names are compared
  case-sensitively, so on a case-insensitive volume "Cache" and "cache"
  share one sandbox, which the lemma does not cover.
- DiskModel.SetLastWriteTime checks the time range before the file, as
  .NET Core on Windows and Mono do. .NET Framework opens the file first,
  so it reports a missing file before a bad time. On Unix, .NET may accept
  times before 1601; the model refuses them.
- DiskModel.WriteFile: the creation time is modelled as a birth time. An
  overwrite keeps it and delete-then-write resets it to `now`. NTFS
  tunnelling, which restores the old creation time after a quick
  delete-and-recreate, is not modelled. Nor is Linux or Android, where the
  reported creation time comes from ctime or mtime and every overwrite
  moves it.
- StoreSpec.SaveObject: sets the creation time to `now` because it deletes
  before writing. That holds under the birth-time reading above, not under
  NTFS tunnelling.
- LegacyProperties.RewriteKeepsFreshness: it holds under the birth-time
  reading above. On Linux and Android an overwrite moves the reported
  creation time, so the legacy freshness answer can change there.
- StoreSpec.GetFilesNames: the model renders every listed path with '/'
  as the separator, so `Split('/').LastOrDefault()` gives the file's own
  name. On a platform whose separator is '\\' (Windows, and the plugin's
  WINDOWS_UWP target) the path holds no '/', so each entry is the whole
  path. StoreProperties.ListingAfterSaves therefore holds only on
  platforms whose separator is '/'.
- Directory.GetFiles order: it is modelled as the order in which files
  were created. The platform gives no order guarantee.
- Time zones and local time: every DateTime is a tick count compared as
  a number. Directory timestamps are not kept.
- async/Task.Run and concurrent calls: each operation runs to completion
  alone.
- Tracing, Debug.WriteLine, File.SetAttributes and FileSetAttributesNormal:
  these have no effect on contents.
- StreamReader in ReadTextFileAsync: it is a whole-file decode.
- Encoding.UTF8 and Newtonsoft.Json: both are parameters. Their laws,
  `Encoding.Lossless` and `Json.Lawful`, are assumed in the lemmas that
  need them, not proved.
- `Formatting.Indented`: left to the `Json` parameter.
- Null arguments are the empty string, because the source treats a null
  and an empty name alike wherever it tests them. The exception is
  SaveFileTemporalAsync, where `Option` keeps the null case, which throws
  in Path.Combine.
- Null byte arrays passed to the saves are not modelled.
- Environment.GetFolderPath and Path.GetTempPath: they are the `documents`,
  `rootFolder` and `temp` parameters. The current working directory that a
  bare relative name resolves against is the `cwd` parameter.
- The NetStandard constructor that takes only a tag: it is
  FileServiceImplementation.Create with the special folder the caller
  passes as `rootFolder`.
- The SandboxTag property of the plugin bases is a plain auto-property, so
  it is the `tag` of the `Config` value passed to each operation.
- CrossFileService, the IFileService interfaces and the platform adapters
  are not part of this model. The platform adapters appear only through
  the DiskModel primitives.
- LegacySpec.SaveFileAsWritten assumes that Directory.CreateDirectory
  throws on every blank name. .NET on Unix may instead create a folder
  named by the whitespace, which would make a whitespace-only folder
  succeed there.
- DiskModel.DeleteFile: a file that another process holds open, or a
  read-only file, cannot make File.Delete fail here.
- src/FileService/Plugin.FileService.Abstractions/IFileService.cs:49
  documents the final path of SaveByteFileAsync as
  `ContentFolder\Path\fileName`. The saves create GetPath(folder) and write
  GetPath(folder, fileName) inside the sandbox root, and the model follows
  that code.

## Findings

| source | as written | input that shows it | evidently intended | confidence | as-written member | corrected member |
|---|---|---|---|---|---|---|
| src/FileService/Plugin.FileService/FileServiceBase.cs:124-126 | DeleteFolderAsync computes the sandbox path and then deletes the bare `folderName`, resolved against the current directory | tag "t", folder "docs" existing in the sandbox, no "docs" in the current directory: the call succeeds and the sandbox folder is still there | delete the resolved folder path, as the newer base does at src/FileService/Plugin.FileService.Shared/FileServiceBase.cs:127-129 | high, not executed | LegacyProperties.DeleteFolderMissesSandboxFolder | StoreProperties.DeleteFolderRemovesTree |
| src/FileService/Plugin.FileService/FileServiceBase.cs:172-174 | SaveFileAsync calls CreateDirectory on the folder name exactly when it is blank | folder "" and a fresh file name: Directory.CreateDirectory("") throws, so the bytes are never written | create the sandbox folder only, as GetAndCreatePath already did, and write the file | medium (depends on the platform's CreateDirectory), not executed | LegacyProperties.SaveFileWithoutFolderFails | StoreProperties.SaveBytesRoundTrip |
| src/FileService/Plugin.FileService.Shared/FileServiceBase.cs:385 | SetCacheCreation and GetCacheCreation call GetPath(fileName, contentFolder), with the folder and the file swapped (also at src.NetStandard/FileService.NetStandard20/Service/FileServiceImplementation.cs:441 and 458) | file "a.json" in folder "cache": they address the path `a.json/cache` instead of `cache/a.json`, so the setter fails and the getter returns the epoch | GetPath(contentFolder, fileName), the argument order of every other call | high, not executed | StoreProperties.SwappedCacheCreationMissesFile | StoreProperties.CacheCreationRoundTrip |
