/** The path operations the logger uses (`path.join`, `path.dirname`,
    `path.basename(p, ext)`) on '/'-separated paths, and the names of the log
    file family: `<base>.log` for the active file and `<base>.log.<i>` for
    backup `i`. */
module Paths {

  import Text

  /** `path.join(dir, name)`, without Node's normalisation of `.`/`..` and repeated separators. */
  function Join(dir: string, name: string): (p: string)
    ensures |p| == |dir| + 1 + |name| && p[|dir|] == '/'
  {
    dir + "/" + name
  }

  /** Index of the last '/' in `p`, or -1 when there is none. */
  function LastSlash(p: string): (k: int)
    ensures -1 <= k < |p|
    ensures k >= 0 ==> p[k] == '/'
    ensures forall j :: k < j < |p| ==> p[j] != '/'
  {
    if |p| == 0 then -1
    else if p[|p| - 1] == '/' then |p| - 1
    else LastSlash(p[..|p| - 1])
  }

  /** `path.dirname(p)`: everything before the last separator, `.` when there is
      none (a root-level `/x` gives the empty string, where Node gives `/`). */
  function DirName(p: string): string {
    var k := LastSlash(p);
    if k < 0 then "." else p[..k]
  }

  /** The last component of `p`. */
  function LastComponent(p: string): (f: string)
    ensures forall j :: 0 <= j < |f| ==> f[j] != '/'
  {
    p[LastSlash(p) + 1..]
  }

  /** `path.basename(p, ext)`: the last component with a trailing `ext` removed. */
  function BaseName(p: string, ext: string): string {
    var f := LastComponent(p);
    if |f| > |ext| && f[|f| - |ext|..] == ext then f[..|f| - |ext|] else f
  }

  /** Joining a separator-free name onto a directory and splitting it again gives
      back the directory and the name. */
  lemma SplitJoin(dir: string, name: string)
    requires '/' !in name
    ensures DirName(Join(dir, name)) == dir
    ensures LastComponent(Join(dir, name)) == name
  {
    var p := Join(dir, name);
    assert LastSlash(p) == |dir|;
  }

  /** `<base>.log` for index 0 (the active file), `<base>.log.<i>` for backup i. */
  function FileName(base: string, index: nat): (f: string)
    ensures |f| >= |base| + 4 && f[..|base|] == base
  {
    if index == 0 then base + ".log" else base + ".log." + Text.Decimal(index)
  }

  /** Distinct indices name distinct files, so the family can be keyed by index. */
  lemma FileNameInjective(base: string, i: nat, j: nat)
    ensures i != j ==> FileName(base, i) != FileName(base, j)
  {
    if i != 0 && j != 0 {
      var n := |base| + 5;
      assert FileName(base, i)[n..] == Text.Decimal(i);
      assert FileName(base, j)[n..] == Text.Decimal(j);
      Text.DecimalInjective(i, j);
    } else if i != j {
      assert |FileName(base, i)| != |FileName(base, j)| by {
        assert |Text.Decimal(i + j)| >= 1;
      }
    }
  }

  /** The directory and base name the rotation takes from the active path are
      the logger's own, so every name it builds is a member of the family, and
      the active path joined again at the end is that same path. */
  lemma ActivePathRebuilt(dir: string, base: string)
    requires '/' !in base && |base| > 0
    ensures var p := Join(dir, FileName(base, 0));
            DirName(p) == dir && BaseName(p, ".log") == base
    ensures var p := Join(dir, FileName(base, 0));
            Join(DirName(p), FileName(BaseName(p, ".log"), 0)) == p
  {
    var p := Join(dir, FileName(base, 0));
    assert '/' !in FileName(base, 0) by {
      assert forall c :: c in ".log" ==> c != '/';
    }
    SplitJoin(dir, FileName(base, 0));
    var f := FileName(base, 0);
    assert f[|f| - 4..] == ".log";
    assert f[..|f| - 4] == base;
  }
}
