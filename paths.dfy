/**
 * get_cbar_outfile of genomap.py: an explicit colorbar file is kept; otherwise the colorbar goes
 * to 'colorbar.pdf' in the directory of the output file, with POSIX os.path.dirname and os.path.join.
 */
module Paths {
  import opened Common
  import opened Text

  const ColorbarName := "colorbar.pdf"

  /** p.rfind('/') + 1: the length of the part up to and including the last slash, 0 without one. */
  function AfterLastSep(p: string): (i: nat)
    ensures i <= |p|
    ensures i > 0 ==> p[i - 1] == '/'
    ensures forall k :: i <= k < |p| ==> p[k] != '/'
  {
    if |p| == 0 then 0
    else if p[|p| - 1] == '/' then |p|
    else AfterLastSep(p[..|p| - 1])
  }

  predicate AllSeps(s: string) {
    forall k :: 0 <= k < |s| ==> s[k] == '/'
  }

  /** s.rstrip('/'). */
  function RStripSeps(s: string): (t: string)
    ensures t <= s
    ensures |t| == 0 || t[|t| - 1] != '/'
    ensures AllSeps(s[|t|..])
  {
    if |s| > 0 && s[|s| - 1] == '/' then RStripSeps(s[..|s| - 1]) else s
  }

  /** posixpath.dirname: the head up to the last slash, trailing slashes removed unless it is all slashes. */
  function Dirname(p: string): (d: string)
    ensures d <= p
    ensures '/' !in p ==> d == ""
  {
    var head := p[..AfterLastSep(p)];
    if |head| > 0 && !AllSeps(head) then RStripSeps(head) else head
  }

  /** posixpath.join(a, b) for two components. */
  function JoinPath(a: string, b: string): (j: string)
    ensures |j| >= |b| && j[|j| - |b|..] == b
    ensures !StartsWith(b, '/') ==> a <= j
  {
    if StartsWith(b, '/') then b
    else if |a| == 0 || a[|a| - 1] == '/' then a + b
    else a + "/" + b
  }

  /** get_cbar_outfile: None and the empty string are falsy. */
  function CbarOutfile(cbarfile: Option<string>, outputfile: string): (r: string)
    ensures |r| > 0
    ensures !Truthy(cbarfile) ==> Dirname(outputfile) <= r
  {
    if cbarfile.Some? && cbarfile.value != "" then cbarfile.value
    else JoinPath(Dirname(outputfile), ColorbarName)
  }

  predicate Truthy(cbarfile: Option<string>) {
    cbarfile.Some? && cbarfile.value != ""
  }

  // ---------------------------------------------------------------------------------------

  /** A given colorbar file is returned unchanged. */
  lemma CbarGiven(cbarfile: Option<string>, outputfile: string)
    requires Truthy(cbarfile)
    ensures CbarOutfile(cbarfile, outputfile) == cbarfile.value
  {
  }

  /**
   * r is p's directory prefix followed by colorbar.pdf: the first m characters of p, where m is 0
   * without a slash and otherwise ends just after a slash of the last run of slashes in p.
   */
  ghost predicate SiblingOf(r: string, p: string) {
    var m := |r| - |ColorbarName|;
    && 0 <= m <= AfterLastSep(p)
    && r == p[..m] + ColorbarName
    && (m == 0 <==> '/' !in p)
    && (m > 0 ==> p[m - 1] == '/')
    && AllSeps(p[m..AfterLastSep(p)])
  }

  /**
   * Otherwise the colorbar is a sibling of the output file: the file name, and the redundant
   * slashes before it, are replaced by colorbar.pdf.
   */
  lemma CbarSibling(cbarfile: Option<string>, outputfile: string)
    requires !Truthy(cbarfile)
    ensures SiblingOf(CbarOutfile(cbarfile, outputfile), outputfile)
  {
    var p := outputfile;
    var i := AfterLastSep(p);
    if i == 0 {
      SiblingNoSep(p);
    } else if AllSeps(p[..i]) {
      SiblingRoot(p);
    } else {
      SiblingStripped(p);
    }
  }

  lemma SiblingNoSep(p: string)
    requires AfterLastSep(p) == 0
    ensures SiblingOf(JoinPath(Dirname(p), ColorbarName), p)
  {
    assert Dirname(p) == "";
    assert JoinPath("", ColorbarName) == ColorbarName;
    assert p[..0] + ColorbarName == ColorbarName;
    assert '/' !in p;
  }

  lemma SiblingRoot(p: string)
    requires AfterLastSep(p) > 0 && AllSeps(p[..AfterLastSep(p)])
    ensures SiblingOf(JoinPath(Dirname(p), ColorbarName), p)
  {
    var i := AfterLastSep(p);
    assert Dirname(p) == p[..i];
    assert p[..i][i - 1] == '/';
    assert JoinPath(p[..i], ColorbarName) == p[..i] + ColorbarName;
    assert p[i - 1] == '/';
    assert p[i..i] == [];
  }

  lemma SiblingStripped(p: string)
    requires AfterLastSep(p) > 0 && !AllSeps(p[..AfterLastSep(p)])
    ensures SiblingOf(JoinPath(Dirname(p), ColorbarName), p)
  {
    var i := AfterLastSep(p);
    StrippedHead(p);
    var m := |RStripSeps(p[..i])| + 1;
    StrippedJoin(p);
    assert AllSeps(p[m..i]) by {
      assert p[m..i] == p[m - 1..i][1..];
    }
    SiblingAt(p, m);
  }

  /** Joining the stripped head with the name puts back exactly one slash of the last run. */
  lemma StrippedJoin(p: string)
    requires AfterLastSep(p) > 0 && !AllSeps(p[..AfterLastSep(p)])
    ensures var t := RStripSeps(p[..AfterLastSep(p)]);
      JoinPath(Dirname(p), ColorbarName) == p[..|t| + 1] + ColorbarName
  {
    var i := AfterLastSep(p);
    StrippedHead(p);
    var t := RStripSeps(p[..i]);
    DirnameStripped(p);
    JoinPlain(t);
    assert t + "/" == p[..|t| + 1];
  }

  lemma DirnameStripped(p: string)
    requires AfterLastSep(p) > 0 && !AllSeps(p[..AfterLastSep(p)])
    ensures Dirname(p) == RStripSeps(p[..AfterLastSep(p)])
  {
  }

  /** A directory that does not end in a slash gets one before the name. */
  lemma JoinPlain(t: string)
    requires |t| > 0 && t[|t| - 1] != '/'
    ensures JoinPath(t, ColorbarName) == t + "/" + ColorbarName
  {
  }

  /** The prefix of p up to a slash at m - 1 of its last run of slashes, followed by the name, is a sibling. */
  lemma SiblingAt(p: string, m: int)
    requires 0 < m <= AfterLastSep(p) && p[m - 1] == '/' && AllSeps(p[m..AfterLastSep(p)])
    ensures SiblingOf(p[..m] + ColorbarName, p)
  {
    assert |p[..m] + ColorbarName| - |ColorbarName| == m;
    assert '/' in p;
  }

  /** Stripping a head that is not all slashes leaves a non-empty prefix followed by a run of slashes. */
  lemma StrippedHead(p: string)
    requires AfterLastSep(p) > 0 && !AllSeps(p[..AfterLastSep(p)])
    ensures var i := AfterLastSep(p);
      var t := RStripSeps(p[..i]);
      && 0 < |t| < i
      && t == p[..|t|]
      && p[|t|] == '/'
      && AllSeps(p[|t|..i])
  {
    var i := AfterLastSep(p);
    var head := p[..i];
    var t := RStripSeps(head);
    assert |t| < i by { assert head[i - 1] == '/'; }
    assert head[|t|..] == p[|t|..i];
    assert p[|t|] == head[|t|..][0];
  }

  /** The default always ends with colorbar.pdf. */
  lemma CbarEndsWithName(cbarfile: Option<string>, outputfile: string)
    requires !Truthy(cbarfile)
    ensures |CbarOutfile(cbarfile, outputfile)| >= |ColorbarName|
    ensures CbarOutfile(cbarfile, outputfile)[|CbarOutfile(cbarfile, outputfile)| - |ColorbarName|..] == ColorbarName
  {
    CbarSibling(cbarfile, outputfile);
  }

  /** An output path without a slash puts the colorbar in the working directory. */
  lemma CbarNoDirectory(cbarfile: Option<string>, outputfile: string)
    requires !Truthy(cbarfile) && '/' !in outputfile
    ensures CbarOutfile(cbarfile, outputfile) == ColorbarName
  {
    CbarSibling(cbarfile, outputfile);
  }

  /** An output path dir/file puts the colorbar at dir/colorbar.pdf. */
  lemma CbarInDirectory(cbarfile: Option<string>, dir: string, file: string)
    requires !Truthy(cbarfile) && '/' !in file && |dir| > 0 && dir[|dir| - 1] != '/'
    ensures CbarOutfile(cbarfile, dir + "/" + file) == dir + "/" + ColorbarName
  {
    var p := dir + "/" + file;
    assert AfterLastSep(p) == |dir| + 1 by {
      var i := AfterLastSep(p);
      assert p[|dir|] == '/';
    }
    assert p[..|dir| + 1] == dir + "/";
    assert !AllSeps(dir + "/") by { assert (dir + "/")[|dir| - 1] != '/'; }
    assert RStripSeps(dir + "/") == dir by {
      assert (dir + "/")[..|dir|] == dir;
    }
    assert Dirname(p) == dir;
    assert !StartsWith(ColorbarName, '/');
  }
}
