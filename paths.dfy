/**
 * File paths as the scanner uses them: `Path.getParent()` and
 * `Path.resolve(String)` on normalised, '/'-separated path strings.
 */
module Paths {
  import opened Wrappers
  import opened JavaStrings

  type Path = string

  /** The index of the last '/' in s, or |s| when there is none. */
  function LastSlash(s: string): (k: nat)
    ensures k <= |s|
    ensures k < |s| ==> s[k] == '/' && '/' !in s[k + 1..]
    ensures k == |s| ==> '/' !in s
  {
    if s == [] then 0
    else if s[|s| - 1] == '/' then |s| - 1
    else
      var k := LastSlash(s[..|s| - 1]);
      if k == |s| - 1 then
        assert s == s[..|s| - 1] + [s[|s| - 1]];
        |s|
      else
        assert s[k + 1..] == s[..|s| - 1][k + 1..] + [s[|s| - 1]];
        k
  }

  /**
   * `Path.getParent()`: the path up to its last '/', the root for a file
   * directly under it, and null (None) for a bare name, which has no parent.
   */
  function Parent(path: Path): (r: Option<Path>)
    ensures r.None? <==> '/' !in path || path == "/"
    ensures r.Some? ==>
              (r.value == "/" && |path| > 1 && path[0] == '/' && '/' !in path[1..]) ||
              (0 < |r.value| < |path| && path[..|r.value|] == r.value && path[|r.value|] == '/' && '/' !in path[|r.value| + 1..])
  {
    var k := LastSlash(path);
    if k == |path| || path == "/" then None
    else if k == 0 then Some("/")
    else Some(path[..k])
  }

  /**
   * `dir.resolve(other)`: an absolute `other` stands for itself, an empty one
   * for `dir`; otherwise `other` is put below `dir`.
   */
  function Resolve(dir: Path, other: string): (p: Path)
    ensures |other| > 0 && other[0] == '/' ==> p == other
    ensures other != [] && dir != [] ==> EndsWith(p, other)
    ensures other != [] && other[0] != '/' && dir != [] ==> dir <= p && |p| <= |dir| + 1 + |other|
    ensures other != [] && other[0] != '/' && dir != [] && dir[|dir| - 1] != '/' ==> |p| == |dir| + 1 + |other| && p[|dir|] == '/'
    ensures other != [] && other[0] != '/' && dir != [] && dir[|dir| - 1] == '/' ==> |p| == |dir| + |other|
  {
    if |other| > 0 && other[0] == '/' then other
    else if other == [] then dir
    else if dir == [] then other
    else if dir[|dir| - 1] == '/' then dir + other
    else dir + "/" + other
  }

  /**
   * The file a bare name resolves to lies in the directory it was resolved
   * against: resolving and then taking the parent gives the directory back.
   */
  lemma ParentOfResolve(dir: Path, name: string)
    requires name != [] && '/' !in name
    requires dir != [] && (dir == "/" || dir[|dir| - 1] != '/')
    ensures Parent(Resolve(dir, name)) == Some(dir)
  {
    var p := Resolve(dir, name);
    var k := LastSlash(p);
    if dir == "/" {
      assert p == "/" + name;
      assert p[0] == '/' && p[1..] == name;
      assert k == 0;
    } else {
      assert p == dir + "/" + name;
      assert p[|dir|] == '/' && p[|dir| + 1..] == name;
      assert k == |dir|;
      assert p[..k] == dir;
    }
  }
}
