/** The two `posixpath` operations the registry applies to manifest paths. */
module Paths {
  import opened Strings

  /** `os.path.join(a, b)` on POSIX: an absolute `b` replaces `a`; otherwise one '/' separates them. */
  function Join(a: string, b: string): (r: string)
    ensures StartsWith(b, "/") ==> r == b
    ensures !StartsWith(b, "/") ==> EndsWith(r, b)
  {
    if StartsWith(b, "/") then b
    else if a == "" || EndsWith(a, "/") then a + b
    else a + "/" + b
  }

  /** `os.path.basename(p)` on POSIX: the text after the last '/'. */
  function Basename(p: string): (r: string)
    ensures '/' !in r
    ensures EndsWith(p, r)
    ensures |r| < |p| ==> p[|p| - |r| - 1] == '/'
  {
    if p == [] then ""
    else if p[|p| - 1] == '/' then ""
    else
      var q, c := p[..|p| - 1], p[|p| - 1];
      var r := Basename(q);
      assert p == q + [c];
      assert p[|p| - |r| - 1..] == q[|q| - |r|..] + [c];
      assert |r| < |q| ==> p[|p| - |r| - 2] == q[|q| - |r| - 1];
      r + [c]
  }
}
