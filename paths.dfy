/**
 * Where the store puts things. Every path is
 *   <root> / <sandbox folder> / [folder] / [fileName]
 * where a blank folder or file name is skipped and a blank SandboxTag
 * is refused. The plugin variants use `<documents>/Plugin.FileService.<tag>`;
 * the NetStandard service uses `<rootFolder>/BiT21.FileService/<tag>`.
 * Joining is segment concatenation: a name is one relative segment.
 */
module Sandbox {
  import opened Text
  import opened DiskModel

  const PluginPrefix := "Plugin.FileService."
  const BiT21Folder := "BiT21.FileService"

  datatype Layout =
    | PluginLayout(documents: Path)   // Environment.GetFolderPath() of the platform adapter
    | BiT21Layout(rootFolder: Path)   // the special folder chosen at construction

  /** What GetPath reads besides its arguments: the layout and the SandboxTag. */
  datatype Config = Config(layout: Layout, tag: string)

  /** The folder that holds everything of one sandbox. */
  function SandboxRoot(c: Config): (r: Path)
    ensures c.layout.PluginLayout? ==>
              c.layout.documents < r && |r| == |c.layout.documents| + 1 && r[|r| - 1] == PluginPrefix + c.tag
    ensures c.layout.BiT21Layout? ==>
              c.layout.rootFolder < r && |r| == |c.layout.rootFolder| + 2 && r[|r| - 2..] == [BiT21Folder, c.tag]
  {
    match c.layout
    case PluginLayout(documents) => documents + [PluginPrefix + c.tag]
    case BiT21Layout(rootFolder) => rootFolder + [BiT21Folder, c.tag]
  }

  /** A name contributes one segment, or none when it is blank. */
  function Segment(name: string): seq<string> {
    if IsBlank(name) then [] else [name]
  }

  /** GetPath(folder, fileName): fails exactly when the tag is blank;
      otherwise the sandbox root, then the folder when it is not blank,
      then the file name when it is not blank. */
  function GetPath(c: Config, folder: string, fileName: string): (r: Result<Path>)
    ensures r.Err? <==> IsBlank(c.tag)
    ensures r.Err? ==> r.error == SandboxTagMissing
    ensures r.Ok? ==> SandboxRoot(c) <= r.value
    ensures r.Ok? ==> |r.value| == |SandboxRoot(c)| + (if IsBlank(folder) then 0 else 1) + (if IsBlank(fileName) then 0 else 1)
    ensures r.Ok? && !IsBlank(fileName) ==> r.value[|r.value| - 1] == fileName
    ensures r.Ok? && !IsBlank(folder) ==> r.value[|SandboxRoot(c)|] == folder
  {
    if IsBlank(c.tag) then Err(SandboxTagMissing)
    else Ok(SandboxRoot(c) + Segment(folder) + Segment(fileName))
  }

  /** A named file lies directly in the folder GetPath(folder) names. */
  lemma FileInFolder(c: Config, folder: string, fileName: string)
    requires !IsBlank(c.tag) && !IsBlank(fileName)
    ensures GetPath(c, folder, fileName).value == GetPath(c, folder, "").value + [fileName]
  {
    assert IsBlank("");
  }

  /** A file named `name` at the sandbox root and a folder named `name`
      resolve to the same path. */
  lemma RootFileIsFolder(c: Config, name: string)
    requires !IsBlank(c.tag)
    ensures GetPath(c, "", name) == GetPath(c, name, "")
  {
    assert IsBlank("");
    assert SandboxRoot(c) + [] + Segment(name) == SandboxRoot(c) + Segment(name) + [];
  }

  /** A tag Path.Combine keeps as exactly one segment of its own: no
      directory separator, and not one of the relative names that
      Path.GetFullPath collapses. */
  predicate IsPlainSegment(name: string) {
    '/' !in name && '\\' !in name && name != "." && name != ".."
  }

  /** Two sandboxes of one layout with different single-segment tags never
      share a path (on a case-sensitive file system). */
  lemma SandboxesDisjoint(c1: Config, c2: Config, folder: string, fileName: string)
    requires c1.layout == c2.layout && c1.tag != c2.tag
    requires !IsBlank(c1.tag) && !IsBlank(c2.tag)
    requires IsPlainSegment(c1.tag) && IsPlainSegment(c2.tag)
    ensures !(SandboxRoot(c1) <= GetPath(c2, folder, fileName).value)
  {
    var p := GetPath(c2, folder, fileName).value;
    match c1.layout
    case PluginLayout(documents) =>
      assert p[|documents|] == SandboxRoot(c2)[|documents|] == PluginPrefix + c2.tag;
      assert (PluginPrefix + c1.tag)[|PluginPrefix|..] == c1.tag;
      assert (PluginPrefix + c2.tag)[|PluginPrefix|..] == c2.tag;
    case BiT21Layout(rootFolder) =>
      assert p[|rootFolder| + 1] == SandboxRoot(c2)[|rootFolder| + 1] == c2.tag;
  }
}
