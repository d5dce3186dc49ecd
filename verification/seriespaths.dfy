/** Recovering a series' path from the name of its result file. Result
    files are named `<detector>_<series file>` inside the directory of the
    series' group. */
module SeriesPaths {

  /** Position `i` of `name` holds its first '_'. */
  predicate FirstUnderscoreAt(name: string, i: int)
  {
    0 <= i < |name| && name[i] == '_' && '_' !in name[..i]
  }

  lemma FirstUnderscoreUnique(name: string, i: int, j: int)
    requires FirstUnderscoreAt(name, i) && FirstUnderscoreAt(name, j)
    ensures i == j
  {
  }

  /** Behind a first character other than '_', the first '_' moves one to
      the right. */
  lemma FirstUnderscoreShift(name: string, k: int)
    requires |name| > 0 && name[0] != '_' && FirstUnderscoreAt(name[1..], k)
    ensures FirstUnderscoreAt(name, k + 1) && name[k + 2..] == name[1..][k + 1..]
  {
    assert name[..k + 1] == [name[0]] + name[1..][..k];
  }

  /** The text after the first '_' of `name`, empty when there is none:
      the third part of partitioning `name` at '_'. */
  function AfterFirstUnderscore(name: string): (r: string)
    ensures '_' !in name ==> r == []
    ensures '_' in name ==> exists i :: FirstUnderscoreAt(name, i) && r == name[i + 1..]
  {
    if name == [] then []
    else if name[0] == '_' then
      assert FirstUnderscoreAt(name, 0);
      name[1..]
    else
      var r := AfterFirstUnderscore(name[1..]);
      assert '_' in name ==> '_' in name[1..];
      assert '_' in name[1..] ==> exists i :: FirstUnderscoreAt(name, i) && r == name[i + 1..] by {
        if '_' in name[1..] {
          var k :| FirstUnderscoreAt(name[1..], k) && r == name[1..][k + 1..];
          FirstUnderscoreShift(name, k);
        }
      }
      r
  }

  /** A detector name without '_' is stripped off exactly. */
  lemma StripsDetectorPrefix(detector: string, file: string)
    requires '_' !in detector
    ensures AfterFirstUnderscore(detector + "_" + file) == file
  {
    var name := detector + "_" + file;
    assert name[..|detector|] == detector;
    assert FirstUnderscoreAt(name, |detector|);
    var i :| FirstUnderscoreAt(name, i) && AfterFirstUnderscore(name) == name[i + 1..];
    FirstUnderscoreUnique(name, i, |detector|);
    assert name[|detector| + 1..] == file;
  }

  /** Joins two path parts the way POSIX `os.path.join` does: an absolute
      second part replaces the first, and a separator is added only when
      the first part is non-empty and does not already end in one. */
  function PathJoin(a: string, b: string): (r: string)
    ensures |b| > 0 && b[0] == '/' ==> r == b
    ensures !(|b| > 0 && b[0] == '/') ==> |r| == |a| + |b| + (if a == [] || a[|a| - 1] == '/' then 0 else 1)
    ensures !(|b| > 0 && b[0] == '/') ==> a <= r && r[|r| - |b|..] == b
    ensures !(|b| > 0 && b[0] == '/') && !(a == [] || a[|a| - 1] == '/') ==> r[|a|] == '/'
  {
    if |b| > 0 && b[0] == '/' then b
    else if a == [] || a[|a| - 1] == '/' then a + b
    else a + "/" + b
  }

  /** The series path: the group directory joined with the stripped name. */
  function SeriesPath(dir: string, name: string): (r: string)
    ensures '_' !in name ==> r == PathJoin(dir, [])
    ensures '_' in name ==>
      exists i :: FirstUnderscoreAt(name, i) && r == PathJoin(dir, name[i + 1..])
  {
    PathJoin(dir, AfterFirstUnderscore(name))
  }

  /** The result file a detector writes for series `dir/file` maps back to
      that series. */
  lemma ResultFileNamesItsSeries(dir: string, detector: string, file: string)
    requires dir != [] && dir[|dir| - 1] != '/'
    requires '_' !in detector
    requires file == [] || file[0] != '/'
    ensures SeriesPath(dir, detector + "_" + file) == dir + "/" + file
  {
    StripsDetectorPrefix(detector, file);
  }
}
