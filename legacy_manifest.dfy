/** The manifest of the legacy commands (src/get.rs, src/set.rs,
    src/install.rs). Those files import a `crate::model` that is not part of
    the repository; its shape is read off their uses: an optional
    architecture and a map from file name to URI and optional SHA-256. The
    legacy files resolve a package's file name with `Path::file_name`,
    modelled here on `/`-separated text. */
module LegacyManifest {
  import opened Wrappers
  import opened Text

  datatype PackageInfo = PackageInfo(uri: string, sha: Option<string>)

  datatype LegacyUriFile = LegacyUriFile(arch: Option<string>, packages: map<string, PackageInfo>)

  /** A name that `Path::file_name` returns: non-empty, without `/`, and
      neither `.` nor `..`. */
  predicate PlainName(name: string)
  {
    name != "" && name != "." && name != ".." && '/' !in name
  }

  /** The last of `parts` that is neither empty nor `.`. */
  function LastPart(parts: seq<string>): (r: Option<string>)
    ensures r.Some? ==> r.value in parts && r.value != "" && r.value != "."
    ensures r.None? ==> forall i :: 0 <= i < |parts| ==> parts[i] == "" || parts[i] == "."
    decreases |parts|
  {
    if |parts| == 0 then None
    else
      var p := parts[|parts| - 1];
      if p == "" || p == "." then LastPart(parts[..|parts| - 1]) else Some(p)
  }

  /** `Path::new(path).file_name()`: the last component, ignoring empty and
      `.` components; none when that component is `..` or there is none. */
  function FileName(path: string): (r: Option<string>)
    ensures r.Some? ==> PlainName(r.value)
  {
    match LastPart(Split(path, '/'))
    case None => None
    case Some(p) => if p == ".." then None else Some(p)
  }

  /** The file name of a path ending in `/` and a plain name is that name:
      the file name of an archive's URI is its last segment. */
  lemma FileNameOfJoined(dir: string, name: string)
    requires PlainName(name)
    ensures FileName(dir + "/" + name) == Some(name)
  {
    SplitEndsWith(dir, name, '/');
  }

  /** Splitting text that ends with a separator and then `t` (free of the
      separator) ends with the piece `t`. */
  lemma {:induction false} SplitEndsWith(s: string, t: string, sep: char)
    requires sep !in t
    ensures var r := Split(s + [sep] + t, sep); r[|r| - 1] == t
    decreases |s|
  {
    var whole := s + [sep] + t;
    var i := IndexOf(whole, sep).value;
    assert whole[|s|] == sep;
    if i < |s| {
      assert whole[i + 1..] == s[i + 1..] + [sep] + t;
      SplitEndsWith(s[i + 1..], t, sep);
    } else {
      assert whole[i + 1..] == t;
    }
  }
}
