/** Platform strings as the dispatcher sees them: `OsString` values that may
    hold bytes which are not valid Unicode, `OsStr::to_str`, and the Unix
    reading of `Path::file_name`. */
module OsStrings {
  import opened Base

  /** One unit of a platform string: a decoded character, or one maximal
      run of bytes that does not decode as UTF-8, as `to_string_lossy`
      counts them, named by a byte of it. The type does not enforce that
      adjacent invalid units could not have decoded together; a value such
      as `[Invalid(0xC3), Invalid(0xA9)]` is read as two runs, not as `é`. */
  datatype OsUnit = Char(c: char) | Invalid(b: byte)

  type OsString = seq<OsUnit>

  const Sep: OsUnit := Char('/')
  const Dot: OsString := [Char('.')]
  const DotDot: OsString := [Char('.'), Char('.')]

  /** The platform string holding exactly the characters of `s`. */
  function FromText(s: string): (o: OsString)
    ensures |o| == |s|
    ensures forall i :: 0 <= i < |s| ==> o[i] == Char(s[i])
  {
    seq(|s|, i requires 0 <= i < |s| => Char(s[i]))
  }

  predicate IsUnicode(o: OsString) {
    forall i :: 0 <= i < |o| ==> o[i].Char?
  }

  /** `OsStr::to_str`: the text, when every unit is a character. */
  function ToStr(o: OsString): (r: Option<string>)
    ensures r.Some? <==> IsUnicode(o)
    ensures r.Some? ==> FromText(r.value) == o
  {
    if IsUnicode(o) then Some(seq(|o|, i requires 0 <= i < |o| && o[i].Char? => o[i].c))
    else None
  }

  /** `OsStr::to_string_lossy`: every invalid unit, one maximal invalid
      run of bytes, becomes one U+FFFD. */
  function Lossy(o: OsString): (s: string)
    ensures |s| == |o|
  {
    seq(|o|, i requires 0 <= i < |o| => if o[i].Char? then o[i].c else '\U{FFFD}')
  }

  lemma ToStrFromText(s: string)
    ensures ToStr(FromText(s)) == Some(s)
  {
    var o := FromText(s);
    assert IsUnicode(o);
    assert ToStr(o).value == s;
  }

  /** Index of the last separator in `p`, or -1 when there is none. */
  function LastSep(p: OsString): (k: int)
    ensures -1 <= k < |p|
    ensures k >= 0 ==> p[k] == Sep
    ensures forall j :: k < j < |p| ==> p[j] != Sep
  {
    if p == [] then -1
    else if p[|p| - 1] == Sep then |p| - 1
    else LastSep(p[..|p| - 1])
  }

  /** A path component that `Path::file_name` can return: not empty, free of
      separators, and neither `.` nor `..`. */
  predicate IsNormalComponent(c: OsString) {
    && c != [] && c != Dot && c != DotDot
    && forall j :: 0 <= j < |c| ==> c[j] != Sep
  }

  /** `Path::file_name` on Unix: the last component of the path when it is a
      normal one. Empty components and `.` components (trailing slashes,
      `a/.`) are skipped; a path ending in `..`, the root and the empty path
      have no file name. */
  function FileName(path: OsString): (r: Option<OsString>)
    ensures r.Some? ==> IsNormalComponent(r.value)
    decreases |path|
  {
    var k := LastSep(path);
    var last := path[k + 1..];
    if last == [] || last == Dot then
      if k < 0 then None else FileName(path[..k])
    else if last == DotDot then None
    else Some(last)
  }

  /** Only the part after the last separator decides the file name: any
      directory prefix is ignored. */
  lemma FileNameOfJoin(dir: OsString, name: OsString)
    requires IsNormalComponent(name)
    ensures FileName(dir + [Sep] + name) == Some(name)
    ensures FileName(name) == Some(name)
  {
    var p := dir + [Sep] + name;
    var k := LastSep(p);
    assert p[|dir|] == Sep;
    assert forall j :: |dir| < j < |p| ==> p[j] == name[j - |dir| - 1];
    assert k == |dir|;
    assert p[k + 1..] == name;
    assert LastSep(name) == -1;
    assert name[0..] == name;
  }
}
