/** The part of UTF-8 path handling the manifest writers use: splitting a path into its
    directory and file name, `file_stem`, `extension` and `with_file_name`, and the
    sibling temp-file name built from them. A path is a string whose components are
    separated by '/'. */
module Paths {
  import opened Common

  /** The length of the directory part: the index just past the last '/', or 0. */
  function DirLength(p: string): (n: nat)
    ensures n <= |p|
    ensures n > 0 ==> p[n - 1] == '/'
    ensures forall i :: n <= i < |p| ==> p[i] != '/'
    decreases |p|
  {
    if p == [] then 0 else if p[|p| - 1] == '/' then |p| else DirLength(p[..|p| - 1])
  }

  /** The directory part, with its trailing '/'; empty for a bare file name. */
  function Dir(p: string): string {
    p[..DirLength(p)]
  }

  /** The text after the last '/'. */
  function LastSegment(p: string): string {
    p[DirLength(p)..]
  }

  /** `file_name`: the last component, absent when the path ends in '/', '.' or '..'. */
  function FileName(p: string): Option<string> {
    var n := LastSegment(p);
    if n == "" || n == "." || n == ".." then None else Some(n)
  }

  /** The index of the last '.' of a file name. */
  function LastDot(name: string): (r: Option<nat>)
    ensures r.Some? ==> r.value < |name| && name[r.value] == '.'
    ensures forall i :: (if r.Some? then r.value + 1 else 0) <= i < |name| ==> name[i] != '.'
    decreases |name|
  {
    if name == [] then None
    else if name[|name| - 1] == '.' then Some(|name| - 1)
    else LastDot(name[..|name| - 1])
  }

  /** A file name split at its last dot into (before, after); a leading dot alone
      does not split, and neither does "..". */
  function SplitAtDot(name: string): (Option<string>, Option<string>) {
    if name == ".." then (Some(name), None)
    else match LastDot(name)
      case None => (None, Some(name))
      case Some(i) => if i == 0 then (Some(name), None) else (Some(name[..i]), Some(name[i + 1..]))
  }

  /** `file_stem`: `before.or(after)` of the split file name. */
  function FileStem(p: string): Option<string> {
    match FileName(p)
    case None => None
    case Some(n) =>
      var (before, after) := SplitAtDot(n);
      if before.Some? then before else after
  }

  /** `extension`: `before.and(after)` of the split file name. */
  function Extension(p: string): Option<string> {
    match FileName(p)
    case None => None
    case Some(n) =>
      var (before, after) := SplitAtDot(n);
      if before.Some? then after else None
  }

  /** `with_file_name` for a path that has a file name: the last component is replaced. */
  function WithFileName(p: string, name: string): string
    requires FileName(p).Some?
  {
    Dir(p) + name
  }

  /** The temp file both manifest writers use: `<stem>_temp.<extension>` beside `p`.
      `None` is the case where one of the two `unwrap` calls panics: the path has no
      file name, or its file name has no dot after its first character. */
  function TempPath(p: string): (t: Option<string>)
    ensures t.Some? <==> FileName(p).Some? && HasInnerDot(FileName(p).value)
  {
    TempPathDefined(p);
    match (FileStem(p), Extension(p))
    case (Some(stem), Some(ext)) => Some(WithFileName(p, stem + "_temp." + ext))
    case _ => None
  }

  /** The name has a dot somewhere after its first character. */
  predicate HasInnerDot(name: string) {
    exists i :: 0 < i < |name| && name[i] == '.'
  }

  /** Both `file_stem` and `extension` are present exactly when there is a file name with
      a dot after its first character. */
  lemma TempPathDefined(p: string)
    ensures FileStem(p).Some? && Extension(p).Some? <==>
              FileName(p).Some? && HasInnerDot(FileName(p).value)
  {
    if FileName(p).Some? {
      var n := FileName(p).value;
      match LastDot(n)
      case None =>
      case Some(i) =>
        if i > 0 {
          assert n != "..";
        }
    }
  }

  lemma {:induction false} DirLengthOfJoin(d: string, n: string)
    requires d == [] || d[|d| - 1] == '/'
    requires '/' !in n
    ensures DirLength(d + n) == |d|
    decreases |n|
  {
    if n == [] {
      assert d + n == d;
    } else {
      var m := n[..|n| - 1];
      assert (d + n)[..|d + n| - 1] == d + m;
      assert n[|n| - 1] in n;
      DirLengthOfJoin(d, m);
    }
  }

  lemma {:induction false} LastDotOfJoin(x: string, e: string)
    requires '.' !in e
    ensures LastDot(x + "." + e) == Some(|x|)
    decreases |e|
  {
    var s := x + "." + e;
    if e == [] {
      assert s[|s| - 1] == '.';
    } else {
      var e' := e[..|e| - 1];
      assert s[..|s| - 1] == x + "." + e';
      assert e[|e| - 1] in e;
      LastDotOfJoin(x, e');
    }
  }

  /** What the file name of `p` is made of when both the stem and the extension exist. */
  lemma StemAndExtensionParts(p: string)
    requires FileStem(p).Some? && Extension(p).Some?
    ensures FileName(p).Some?
    ensures FileName(p).value == FileStem(p).value + "." + Extension(p).value
    ensures |FileStem(p).value| > 0
    ensures '.' !in Extension(p).value
    ensures '/' !in FileStem(p).value && '/' !in Extension(p).value
  {
    var n := FileName(p).value;
    assert n == LastSegment(p);
    assert forall c :: c in n ==> c != '/';
    var i := LastDot(n).value;
    assert n == n[..i] + "." + n[i + 1..];
    assert forall c :: c in n[i + 1..] ==> c in n;
    assert forall c :: c in n[..i] ==> c in n;
  }

  lemma FileNameOfJoin(d: string, name: string)
    requires d == [] || d[|d| - 1] == '/'
    requires '/' !in name && |name| > 2
    ensures Dir(d + name) == d && FileName(d + name) == Some(name)
  {
    DirLengthOfJoin(d, name);
    assert (d + name)[|d|..] == name;
  }

  lemma SplitTempName(stem: string, ext: string)
    requires '.' !in ext
    ensures SplitAtDot(stem + "_temp." + ext) == (Some(stem + "_temp"), Some(ext))
  {
    var name := stem + "_temp." + ext;
    assert name == (stem + "_temp") + "." + ext;
    LastDotOfJoin(stem + "_temp", ext);
    assert name[..|stem| + 5] == stem + "_temp";
    assert name[|stem| + 6..] == ext;
  }

  /** The file name, stem and extension of `d + stem + "_temp." + ext`. */
  lemma TempNameParts(d: string, stem: string, ext: string)
    requires d == [] || d[|d| - 1] == '/'
    requires '/' !in stem && '/' !in ext && '.' !in ext
    ensures var t := d + (stem + "_temp." + ext);
      && Dir(t) == d
      && FileName(t) == Some(stem + "_temp." + ext)
      && FileStem(t) == Some(stem + "_temp")
      && Extension(t) == Some(ext)
  {
    var name := stem + "_temp." + ext;
    assert '/' !in name;
    FileNameOfJoin(d, name);
    SplitTempName(stem, ext);
  }

  lemma PathLength(p: string)
    requires FileStem(p).Some? && Extension(p).Some?
    ensures |p| == |Dir(p)| + |FileStem(p).value| + 1 + |Extension(p).value|
  {
    StemAndExtensionParts(p);
    assert FileName(p) == Some(LastSegment(p));
    assert p == Dir(p) + LastSegment(p);
  }

  /** The temp file lies in the same directory as `p`, its name is the stem with "_temp"
      appended and the same extension, and it is a different path from `p`. */
  lemma TempPathIsSibling(p: string)
    requires TempPath(p).Some?
    ensures var t := TempPath(p).value;
      && Dir(t) == Dir(p)
      && FileName(t) == Some(FileStem(p).value + "_temp." + Extension(p).value)
      && FileStem(t) == Some(FileStem(p).value + "_temp")
      && Extension(t) == Some(Extension(p).value)
      && t != p
  {
    StemAndExtensionParts(p);
    PathLength(p);
    var stem, ext := FileStem(p).value, Extension(p).value;
    var d := Dir(p);
    assert TempPath(p).value == d + (stem + "_temp." + ext);
    TempNameParts(d, stem, ext);
  }
}
