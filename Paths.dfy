/** The three `System.IO.Path` calls the command makes on its path argument, as the
    .NET Framework computes them on Windows: the file name is what follows the last
    directory or volume separator, the stem is the file name up to its last dot, and
    the extension is the file name from its last dot on, or empty when there is no
    dot or the dot is the last character. */
module Paths {

  /** `\\`, `/` and `:` end a directory or volume part of a path. */
  predicate IsSeparator(c: char) {
    c == '\\' || c == '/' || c == ':'
  }
  /** The position of the last separator in `s`, or -1: where the scan of
      `Path.GetFileName` from the end of the path stops. */
  function LastSeparator(s: string): (i: int)
    ensures -1 <= i < |s|
    ensures i >= 0 ==> IsSeparator(s[i])
    ensures forall j :: i < j < |s| ==> !IsSeparator(s[j])
  {
    if |s| == 0 then -1
    else if IsSeparator(s[|s| - 1]) then |s| - 1
    else LastSeparator(s[..|s| - 1])
  }
  /** `Path.GetFileName`: the longest separator-free suffix of the path. */
  function FileName(path: string): (name: string)
    ensures |name| <= |path| && name == path[|path| - |name|..]
    ensures forall i :: 0 <= i < |name| ==> !IsSeparator(name[i])
    ensures |name| < |path| ==> IsSeparator(path[|path| - |name| - 1])
  {
    path[LastSeparator(path) + 1..]
  }
  /** `string.LastIndexOf(c)`: the last position of `c` in `s`, or -1. */
  function LastIndexOf(s: string, c: char): (i: int)
    ensures -1 <= i < |s|
    ensures i >= 0 ==> s[i] == c
    ensures forall j :: i < j < |s| ==> s[j] != c
  {
    if |s| == 0 then -1
    else if s[|s| - 1] == c then |s| - 1
    else LastIndexOf(s[..|s| - 1], c)
  }
  /** The file name without its extension: a prefix of the name that stops just
      before its last dot. */
  function StemOf(name: string): (stem: string)
    ensures |stem| <= |name| && stem == name[..|stem|]
    ensures |stem| < |name| ==> name[|stem|] == '.' && '.' !in name[|stem| + 1..]
    ensures |stem| == |name| ==> '.' !in name
  {
    var i := LastIndexOf(name, '.');
    if i == -1 then name else name[..i]
  }

  /** The extension of a file name: empty, or a dot followed by at least one
      character, none of them a dot, ending the name. */
  function ExtensionOf(name: string): (ext: string)
    ensures ext == "" || (|ext| >= 2 && ext[0] == '.' && '.' !in ext[1..])
    ensures |ext| <= |name| && ext == name[|name| - |ext|..]
    ensures ext == "" <==> ('.' !in name || name[|name| - 1] == '.')
  {
    var i := LastIndexOf(name, '.');
    if i == -1 || i == |name| - 1 then ""
    else
      assert forall j :: 0 <= j < |name[i..][1..]| ==> name[i..][1..][j] == name[i + 1 + j];
      name[i..]
  }

  /** `Path.GetFileNameWithoutExtension`. */
  function Stem(path: string): string
  {
    StemOf(FileName(path))
  }

  /** `Path.GetExtension`. */
  function Extension(path: string): string
  {
    ExtensionOf(FileName(path))
  }

  /** The stem followed by the extension is the whole file name, except that a name
      ending in a dot loses that dot from both. */
  lemma SplitFileName(name: string)
    ensures if |name| > 0 && name[|name| - 1] == '.'
            then StemOf(name) + "." == name && ExtensionOf(name) == ""
            else StemOf(name) + ExtensionOf(name) == name
  {
    var i := LastIndexOf(name, '.');
    if i != -1 {
      assert name[..i] + name[i..] == name;
    }
  }

  /** A plain file name `stem.ext`, with no separator anywhere and no dot in the
      stem or in `ext`, splits into `stem` and `.ext`. */
  lemma SplitPlainName(stem: string, ext: string)
    requires ext != []
    requires forall i :: 0 <= i < |stem| ==> stem[i] != '.' && !IsSeparator(stem[i])
    requires forall i :: 0 <= i < |ext| ==> ext[i] != '.' && !IsSeparator(ext[i])
    ensures Stem(stem + "." + ext) == stem
    ensures Extension(stem + "." + ext) == "." + ext
  {
    var path := stem + "." + ext;
    assert forall i :: 0 <= i < |path| ==> !IsSeparator(path[i]) by {
      forall i | 0 <= i < |path| ensures !IsSeparator(path[i]) {
        if i > |stem| {
          assert path[i] == ext[i - |stem| - 1];
        }
      }
    }
    assert FileName(path) == path;
    assert forall i :: |stem| < i < |path| ==> path[i] != '.' by {
      forall i | |stem| < i < |path| ensures path[i] != '.' {
        assert path[i] == ext[i - |stem| - 1];
      }
    }
    assert path[|stem|] == '.';
    assert LastIndexOf(path, '.') == |stem|;
    assert path[..|stem|] == stem;
    assert path[|stem|..] == "." + ext;
  }
}
