/** The two `os.path` calls the media destination needs, with POSIX
    (`posixpath`) semantics, written out as string functions. */
module Paths {
  import opened Strings

  /** `s.rfind(c)`: the last index holding `c`, or -1. */
  function LastIndexOf(s: string, c: char): (r: int)
    ensures -1 <= r < |s|
    ensures r >= 0 ==> s[r] == c
    ensures NotAfter(s, c, r)
  {
    if |s| == 0 then -1
    else if s[|s| - 1] == c then |s| - 1
    else LastIndexOf(s[..|s| - 1], c)
  }

  /** No index of `s` beyond `r` holds `c`. */
  predicate NotAfter(s: string, c: char, r: int) {
    forall j :: r < j < |s| && j >= 0 ==> s[j] != c
  }

  /** The index holding `c` with none after it is the one `rfind` finds. */
  lemma LastIndexOfIs(s: string, c: char, k: nat)
    requires k < |s| && s[k] == c && NotAfter(s, c, k)
    ensures LastIndexOf(s, c) == k
  {
  }

  /** Some character of `s` is not a dot. */
  predicate HasNonDot(s: string) {
    exists i :: 0 <= i < |s| && s[i] != '.'
  }

  /** `os.path.splitext(p)`: the extension is the part from the last dot of
      the final path component, provided that dot is not one of the
      component's leading dots; otherwise the extension is empty. */
  function SplitExt(p: string): (r: (string, string))
    ensures r.0 + r.1 == p
  {
    var sep := LastIndexOf(p, '/');
    var dot := LastIndexOf(p, '.');
    if dot > sep && HasNonDot(p[sep + 1..dot]) then
      assert p[..dot] + p[dot..] == p;
      (p[..dot], p[dot..])
    else
      assert p + "" == p;
      (p, "")
  }

  /** A non-empty extension is one dot followed by neither a slash nor
      another dot, and the name before it is not made of dots alone. */
  lemma SplitExtShape(p: string)
    ensures var (root, ext) := SplitExt(p);
      ext != "" ==>
        && ext[0] == '.'
        && (forall j :: 0 <= j < |ext| ==> ext[j] != '/')
        && (forall j :: 1 <= j < |ext| ==> ext[j] != '.')
        && HasNonDot(root[LastIndexOf(p, '/') + 1..])
  {
    var sep := LastIndexOf(p, '/');
    var dot := LastIndexOf(p, '.');
    if dot > sep && HasNonDot(p[sep + 1..dot]) {
      var ext := p[dot..];
      forall j | 0 <= j < |ext|
        ensures ext[j] == p[dot + j]
      {
      }
      assert p[..dot][sep + 1..] == p[sep + 1..dot];
    }
  }

  /** The extension is found whenever the final component has a dot that is
      not one of its leading dots. */
  lemma SplitExtFindsExtension(p: string, i: nat)
    requires LastIndexOf(p, '/') < i < |p| && p[i] == '.'
    requires HasNonDot(p[LastIndexOf(p, '/') + 1..i])
    ensures SplitExt(p).1 != ""
  {
    var sep := LastIndexOf(p, '/');
    var dot := LastIndexOf(p, '.');
    assert dot >= i;
    var k :| 0 <= k < |p[sep + 1..i]| && p[sep + 1..i][k] != '.';
    assert p[sep + 1 + k] != '.';
    assert p[sep + 1..dot][k] == p[sep + 1 + k];
  }

  /** `os.path.join(a, b)` for two components. */
  function Join(a: string, b: string): (r: string)
    ensures |b| > 0 && b[0] == '/' ==> r == b
    ensures !(|b| > 0 && b[0] == '/') ==>
      (r == a + b || r == a + "/" + b) && (r == a + b <==> a == "" || a[|a| - 1] == '/')
  {
    if |b| > 0 && b[0] == '/' then b
    else if a == "" || a[|a| - 1] == '/' then a + b
    else a + "/" + b
  }

  /** Joining onto the same directory keeps relative names apart. */
  lemma JoinInjective(a: string, b1: string, b2: string)
    requires !(|b1| > 0 && b1[0] == '/') && !(|b2| > 0 && b2[0] == '/')
    ensures Join(a, b1) == Join(a, b2) ==> b1 == b2
  {
    if Join(a, b1) == Join(a, b2) {
      var pre := if a == "" || a[|a| - 1] == '/' then a else a + "/";
      assert Join(a, b1) == pre + b1 && Join(a, b2) == pre + b2;
      assert b1 == (pre + b1)[|pre|..];
      assert b2 == (pre + b2)[|pre|..];
    }
  }
}
