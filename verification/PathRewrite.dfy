/** How proxy.go rewrites the path of a request that MatchSite has accepted. */
module PathRewrite {
  import opened RouteIndex

  function HasSuffixSlash(a: string): bool { a != "" && a[|a| - 1] == '/' }

  function HasPrefixSlash(b: string): bool { b != "" && b[0] == '/' }

  function SingleJoiningSlash(a: string, b: string): string {
    if HasSuffixSlash(a) && HasPrefixSlash(b) then a + b[1..]
    else if !HasSuffixSlash(a) && !HasPrefixSlash(b) then (if a == "" then b else a + "/" + b)
    else a + b
  }

  function TrimPrefix(s: string, prefix: string): string {
    if prefix <= s then s[|prefix|..] else s
  }

  function Rewritten(strip: bool, prefix: string, targetPath: string, urlPath: string): string {
    var p := if strip then TrimPrefix(urlPath, prefix) else urlPath;
    SingleJoiningSlash(targetPath, if strip && p == "" then "/" else p)
  }

  /** The target path without the slash the seam already provides. */
  function Base(targetPath: string): string {
    if HasSuffixSlash(targetPath) then targetPath[..|targetPath| - 1] else targetPath
  }

  /**
   At the seam there is the slash that starts the second part, or one put there for it; a slash that ends
   the first part is not repeated.  Only an empty first part adds nothing.
   */
  lemma JoinHasOneSlash(a: string, b: string)
    ensures SingleJoiningSlash(a, b) ==
      if HasPrefixSlash(b) then Base(a) + b else if a == "" then b else Base(a) + "/" + b
  {
    if HasSuffixSlash(a) {
      assert a == a[..|a| - 1] + "/";
      if HasPrefixSlash(b) {
        assert a + b[1..] == a[..|a| - 1] + ("/" + b[1..]);
        assert "/" + b[1..] == b;
      }
    }
  }

  /** What MatchSite guarantees: stripping leaves nothing, or a path; it never cuts inside a segment. */
  lemma StripIsClean(prefix: string, path: string)
    requires PathMatches(prefix, path)
    ensures "/" + prefix <= path && path == "/" + prefix + TrimPrefix(path, "/" + prefix)
    ensures var rest := TrimPrefix(path, "/" + prefix); rest == "" || rest[0] == '/'
  {}

  /** The backend sees the target path, one slash, and the rest of the public path. */
  lemma RewriteJoinsOnce(prefix: string, targetPath: string, path: string)
    requires PathMatches(prefix, path)
    ensures Rewritten(false, "/" + prefix, targetPath, path) == Base(targetPath) + path
    ensures var rest := TrimPrefix(path, "/" + prefix);
      Rewritten(true, "/" + prefix, targetPath, path) == Base(targetPath) + (if rest == "" then "/" else rest)
  {
    StripIsClean(prefix, path);
    var rest := TrimPrefix(path, "/" + prefix);
    JoinHasOneSlash(targetPath, path);
    JoinHasOneSlash(targetPath, if rest == "" then "/" else rest);
  }

  lemma SameTail(a: string, x: string, y: string)
    requires a + x == a + y
    ensures x == y
  {
    assert (a + x)[|a|..] == x && (a + y)[|a|..] == y;
  }

  /**
   The public path can be recovered from what the backend sees: two accepted paths are rewritten alike
   only if they are equal, or if the prefix is stripped and they are "/p" and "/p/".
   */
  lemma RewriteIsInjective(strip: bool, prefix: string, targetPath: string, x: string, y: string)
    requires PathMatches(prefix, x) && PathMatches(prefix, y)
    ensures Rewritten(strip, "/" + prefix, targetPath, x) == Rewritten(strip, "/" + prefix, targetPath, y) <==>
            x == y || (strip && {x, y} == {"/" + prefix, "/" + prefix + "/"})
  {
    var p := "/" + prefix;
    StripIsClean(prefix, x);
    StripIsClean(prefix, y);
    RewriteJoinsOnce(prefix, targetPath, x);
    RewriteJoinsOnce(prefix, targetPath, y);
    var rx, ry := TrimPrefix(x, p), TrimPrefix(y, p);
    if strip {
      var x1, y1 := if rx == "" then "/" else rx, if ry == "" then "/" else ry;
      if Base(targetPath) + x1 == Base(targetPath) + y1 {
        SameTail(Base(targetPath), x1, y1);
      }
      if {x, y} == {p, p + "/"} {
        assert x in {p, p + "/"} && y in {p, p + "/"};
      }
    } else if Base(targetPath) + x == Base(targetPath) + y {
      SameTail(Base(targetPath), x, y);
    }
  }

  /** Without that guarantee the cut would fall inside a segment exactly when the prefix ends inside one. */
  lemma StripCutsExactly(prefix: string, path: string)
    requires "/" + prefix <= path
    ensures (var rest := TrimPrefix(path, "/" + prefix); rest == "" || rest[0] == '/') <==> PathMatches(prefix, path)
  {}

  /** The path part of the Director that buildProxy installs, and what it does to a path MatchSite accepts. */
  method Direct(r: Route, targetPath: string, urlPath: string) returns (path: string)
    ensures path == Rewritten(r.stripPrefix, "/" + r.prefix, targetPath, urlPath)
    ensures PathMatches(r.prefix, urlPath) ==>
              var rest := urlPath[1 + |r.prefix|..];
              path == Base(targetPath) + (if !r.stripPrefix then urlPath else if rest == "" then "/" else rest)
  {
    if PathMatches(r.prefix, urlPath) {
      RewriteJoinsOnce(r.prefix, targetPath, urlPath);
    }
    path := urlPath;
    if r.stripPrefix {
      path := TrimPrefix(path, "/" + r.prefix);
      if path == "" {
        path := "/";
      }
    }
    path := SingleJoiningSlash(targetPath, path);
  }
}
