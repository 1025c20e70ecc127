/**
 * The sort key of an image path: the text after the last '/' and before
 * the first '.', i.e. Python's `x.split('/')[-1].split('.')[0]`.
 */
module FileNames {

  /** `s.split(sep)[-1]`: the longest suffix of `s` free of `sep`. */
  function AfterLast(s: string, sep: char): (r: string)
    ensures |r| <= |s| && r == s[|s| - |r|..]
    ensures sep !in r
    ensures |r| == |s| || s[|s| - |r| - 1] == sep
  {
    if s == [] || s[|s| - 1] == sep then []
    else AfterLast(s[..|s| - 1], sep) + [s[|s| - 1]]
  }

  /** `s.split(sep)[0]`: the longest prefix of `s` free of `sep`. */
  function BeforeFirst(s: string, sep: char): (r: string)
    ensures |r| <= |s| && r == s[..|r|]
    ensures sep !in r
    ensures |r| == |s| || s[|r|] == sep
  {
    if s == [] || s[0] == sep then []
    else [s[0]] + BeforeFirst(s[1..], sep)
  }

  /** The file-name stem of a path. */
  function Stem(path: string): (r: string)
    ensures '/' !in r && '.' !in r
    ensures |r| <= |path|
  {
    BeforeFirst(AfterLast(path, '/'), '.')
  }

  /** The stem of `dir/name.ext` is `name`, whatever the directory and
      however many dotted extensions follow. */
  lemma StemOfPath(dir: string, name: string, ext: string)
    requires '/' !in name && '.' !in name
    requires '/' !in ext
    requires ext == [] || ext[0] == '.'
    ensures Stem(dir + ['/'] + name + ext) == name
  {
    var p := dir + ['/'] + name + ext;
    var tail := name + ext;
    var a := AfterLast(p, '/');
    assert p[|dir|] == '/';
    assert a == tail;
    assert tail[..|name|] == name;
  }
}
