/** The parts of Node's `path` module (POSIX flavour) that the tools use, for paths without a
    trailing separator. */
module Paths {
  import opened Text

  /** The index of the last `c` in `s`, or -1 when there is none (`lastIndexOf`). */
  function LastIndex(s: string, c: char): (r: int)
    ensures -1 <= r < |s|
    ensures r >= 0 ==> s[r] == c
    ensures forall j :: r < j < |s| ==> s[j] != c
    decreases |s|
  {
    if s == [] then -1 else if s[|s| - 1] == c then |s| - 1 else LastIndex(s[..|s| - 1], c)
  }

  /** `path.basename(p)`: everything after the last separator. */
  function Basename(p: string): (r: string)
    ensures '/' !in r
    ensures EndsWith(p, r)
  {
    p[LastIndex(p, '/') + 1..]
  }

  /** `path.basename(p, suffix)`: the base name with `suffix` removed when it ends with it. Node keeps a
      base name that is nothing but the suffix, and returns "" when the whole path is the suffix. */
  function BasenameWithout(p: string, suffix: string): (r: string)
    ensures p == suffix && suffix != "" ==> r == ""
    ensures p != suffix && |Basename(p)| > |suffix| && EndsWith(Basename(p), suffix) ==> r + suffix == Basename(p)
    ensures p != suffix && !(|Basename(p)| > |suffix| && EndsWith(Basename(p), suffix)) ==> r == Basename(p)
  {
    if suffix != "" && p == suffix then ""
    else
      var b := Basename(p);
      if |b| > |suffix| && EndsWith(b, suffix) then b[..|b| - |suffix|] else b
  }

  /** `path.extname(p)`: the base name from its last `.` on, or "" when there is no dot, the only
      dot leads the name, or the name is `..`. */
  function ExtName(p: string): (r: string)
    ensures r == "" || (r[0] == '.' && EndsWith(Basename(p), r) && |r| < |Basename(p)|)
  {
    var b := Basename(p);
    var k := LastIndex(b, '.');
    if k <= 0 || b == ".." then "" else b[k..]
  }

  /** `path.dirname(p)`: everything before the last separator; "." without one, "/" (or "//") for
      a root. */
  function Dirname(p: string): string
  {
    var k := LastIndex(p, '/');
    if k == -1 then "."
    else if k == 0 then "/"
    else if k == 1 && p[0] == '/' then "//"
    else p[..k]
  }

  /** `path.join(a, b)` without normalisation. */
  function Join(a: string, b: string): (r: string)
    ensures a != "" && b != "" && !EndsWith(a, "/") ==> r == a + "/" + b
    ensures a == "" && b != "" ==> r == b
    ensures b != "" ==> EndsWith(r, b)
  {
    if a == "" && b == "" then "."
    else if a == "" then b
    else if b == "" then a
    else if EndsWith(a, "/") then a + b
    else a + "/" + b
  }

  /** Joining a file name to a directory gives a path whose base name is that file name. */
  lemma BasenameOfJoin(dir: string, name: string)
    requires name != "" && '/' !in name
    ensures Basename(Join(dir, name)) == name
  {
    var p := Join(dir, name);
    assert EndsWith(p, name);
    var k := LastIndex(p, '/');
    if dir != "" {
      assert p[|p| - |name| - 1] == '/';
    }
    assert k == |p| - |name| - 1;
  }

  /** ... and whose directory name is that directory. */
  lemma DirnameOfJoin(dir: string, name: string)
    requires dir != "" && !EndsWith(dir, "/")
    requires name != "" && '/' !in name
    ensures Dirname(Join(dir, name)) == dir
  {
    var p := dir + "/" + name;
    assert Join(dir, name) == p;
    assert LastIndex(p, '/') == |dir| by { LastSlashBefore(dir, name); }
    assert dir[|dir| - 1] != '/' by { assert dir[|dir| - 1..] == [dir[|dir| - 1]]; }
    assert p[..|dir|] == dir;
  }

  /** In `a + "/" + b` with no separator in `b`, the last separator is the one between them. */
  lemma {:induction false} LastSlashBefore(a: string, b: string)
    requires '/' !in b
    ensures LastIndex(a + "/" + b, '/') == |a|
    decreases |b|
  {
    var p := a + "/" + b;
    if b != [] {
      assert p[|p| - 1] == b[|b| - 1];
      assert p[..|p| - 1] == a + "/" + b[..|b| - 1];
      LastSlashBefore(a, b[..|b| - 1]);
    }
  }
}
