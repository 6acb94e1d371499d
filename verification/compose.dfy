/** The commit message and the tag name of a release (index.js:104, index.js:110). */
module Compose {
  import opened Text

  const VersionPlaceholder := "%ver%"

  /** `template.replace('%ver%', version)`: the leftmost placeholder, and only it, becomes the version. */
  function CommitMessage(template: string, version: string): (m: string)
    ensures Free(template, VersionPlaceholder) ==> m == template
    ensures forall i :: FirstAt(template, VersionPlaceholder, i) ==>
      m == template[..i] + version + template[i + |VersionPlaceholder|..]
  {
    ReplaceFirst(template, VersionPlaceholder, version)
  }

  /** The default template `Release v%ver%` gives `Release v` followed by the version. */
  lemma DefaultCommitMessage(version: string)
    ensures CommitMessage("Release v%ver%", version) == "Release v" + version
  {
    var t := "Release v%ver%";
    forall j | 0 <= j < 9
      ensures !OccursAt(t, VersionPlaceholder, j)
    {
      assert t[j] != '%';
      if j + 5 <= |t| {
        assert t[j..j + 5][0] == t[j];
      }
    }
    assert t[9..14] == VersionPlaceholder;
    assert FirstAt(t, VersionPlaceholder, 9);
    assert t[..9] == "Release v";
    assert t[14..] == [];
  }

  /** A second placeholder is left as it is. */
  lemma OnlyFirstPlaceholderReplaced(version: string)
    ensures CommitMessage("%ver% %ver%", version) == version + " %ver%"
  {
    var t := "%ver% %ver%";
    assert t[0..5] == VersionPlaceholder;
    assert FirstAt(t, VersionPlaceholder, 0);
    assert CommitMessage(t, version) == t[..0] + version + t[5..];
    assert t[..0] == [] && t[5..] == " %ver%";
  }

  /** The tag the script creates for a version: `'v' + version`. */
  function TagName(version: string): (tag: string)
    ensures |tag| == |version| + 1 && tag[0] == 'v' && tag[1..] == version
  {
    "v" + version
  }
}
