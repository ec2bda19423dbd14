/**
 * The few string operations the store relies on: .NET's notion of a
 * blank string (`string.IsNullOrWhiteSpace`), the '/'-joined text of a
 * path, and the leaf name taken from such a text
 * (`f.Split('/').LastOrDefault()`).
 *
 * A C# `null` string is modelled as the empty string: every check in the
 * store treats the two alike.
 */
module Text {

  /** `char.IsWhiteSpace`: the Unicode space separators, line and
      paragraph separators, U+0009..U+000D and U+0085. */
  predicate IsWhiteSpace(c: char) {
    || c == ' '
    || ('\t' <= c <= '\r')
    || c == '\U{0085}'
    || c == '\U{00A0}'
    || c == '\U{1680}'
    || ('\U{2000}' <= c <= '\U{200A}')
    || c == '\U{2028}'
    || c == '\U{2029}'
    || c == '\U{202F}'
    || c == '\U{205F}'
    || c == '\U{3000}'
  }

  /** `string.IsNullOrWhiteSpace(s)`. */
  predicate IsBlank(s: string) {
    forall i | 0 <= i < |s| :: IsWhiteSpace(s[i])
  }

  /** The text after the last '/' of `s` (all of `s` when it has none):
      the longest suffix of `s` that holds no '/'. */
  function LeafName(s: string): (r: string)
    ensures '/' !in r
    ensures |r| <= |s| && r == s[|s| - |r|..]
    ensures |r| < |s| ==> s[|s| - |r| - 1] == '/'
  {
    if s == [] || s[|s| - 1] == '/' then []
    else LeafName(s[..|s| - 1]) + [s[|s| - 1]]
  }

  /** The text of a path made of `segments`, each preceded by '/'. */
  function Render(segments: seq<string>): string {
    if segments == [] then ""
    else Render(segments[..|segments| - 1]) + "/" + segments[|segments| - 1]
  }

  /** A name without '/' after a '/' is the leaf name of the whole text. */
  lemma {:induction false} LeafNameAfterSlash(prefix: string, name: string)
    requires '/' !in name
    ensures LeafName(prefix + "/" + name) == name
  {
    var s := prefix + "/" + name;
    if name != [] {
      var last := |name| - 1;
      assert s[..|s| - 1] == prefix + "/" + name[..last];
      LeafNameAfterSlash(prefix, name[..last]);
      assert name == name[..last] + [name[last]];
    }
  }

  /** The leaf name of a rendered path is its last segment, provided that
      segment holds no '/'. */
  lemma LeafNameOfRender(segments: seq<string>)
    requires segments != []
    requires '/' !in segments[|segments| - 1]
    ensures LeafName(Render(segments)) == segments[|segments| - 1]
  {
    LeafNameAfterSlash(Render(segments[..|segments| - 1]), segments[|segments| - 1]);
  }
}
