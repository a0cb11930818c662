/**
 * The URLs the scripts take apart: both `urlparse(url)` (for the scheme
 * and the host) and `url.split("/")` (for everything else) are applied to
 * the same string. The two agree on URLs of the shape
 * `scheme://host/segment/...`, which is the shape this module admits, as
 * long as `urlparse` does not reject the host: it raises for a non-ASCII
 * host whose NFKC form holds `/`, `?`, `#`, `@` or `:`, and this module
 * does not model Unicode normalisation.
 */
module Urls {
  import opened Strings

  predicate IsLower(c: char) { 'a' <= c <= 'z' }

  /** A character `urlparse` accepts in a scheme. */
  predicate IsSchemeChar(c: char) {
    IsLower(c) || ('0' <= c <= '9') || c == '+' || c == '-' || c == '.'
  }

  /** `scheme:` as the first `/`-piece: a lower-case letter, then scheme characters, then `:`. */
  predicate IsSchemePiece(p: string) {
    |p| >= 2 && p[|p| - 1] == ':' && IsLower(p[0]) &&
    forall k :: 0 <= k < |p| - 1 ==> IsSchemeChar(p[k])
  }

  /** A host that `urlparse` takes whole as the network location. */
  predicate IsHost(h: string) {
    '?' !in h && '#' !in h && '[' !in h && ']' !in h
  }

  /**
   * `scheme://host`, then nothing or `/` and a path. Characters that
   * `urlparse` silently deletes (tab, carriage return, line feed) are
   * excluded.
   */
  predicate WellShaped(url: string) {
    var p := Split(url, '/');
    |p| >= 3 && IsSchemePiece(p[0]) && p[1] == "" && IsHost(p[2]) &&
    '\t' !in url && '\r' !in url && '\n' !in url
  }

  /** `urlparse(url).scheme`. */
  function Scheme(url: string): string
    requires WellShaped(url)
  {
    var p := Split(url, '/')[0];
    p[..|p| - 1]
  }

  /** `urlparse(url).netloc`. */
  function Netloc(url: string): string
    requires WellShaped(url)
  {
    Split(url, '/')[2]
  }

  /** `f"{parsed_url.scheme}://{parsed_url.netloc}"`. */
  function Origin(url: string): (o: string)
    requires WellShaped(url)
    ensures o == Join(Split(url, '/')[..3], '/')
  {
    var p := Split(url, '/');
    JoinThree(p[..3]);
    assert p[..3][2..] == [p[2]];
    assert "://" == ":" + "/" + "" + "/";
    Scheme(url) + "://" + Netloc(url)
  }

  /** Everything of the URL after the host: empty, or `/` and the path. */
  function PathPart(url: string): string
    requires WellShaped(url)
  {
    var p := Split(url, '/');
    if |p| == 3 then "" else "/" + Join(p[3..], '/')
  }

  /** Joining three or more pieces puts a separator after each of the first two. */
  lemma JoinThree(p: seq<string>)
    requires |p| >= 3
    ensures Join(p, '/') == p[0] + "/" + p[1] + "/" + Join(p[2..], '/')
  {
    assert p[1..][1..] == p[2..];
    assert Join(p, '/') == p[0] + "/" + Join(p[1..], '/');
    assert Join(p[1..], '/') == p[1] + "/" + Join(p[2..], '/');
  }

  /** The pieces after the host, joined, are the path part. */
  lemma JoinHostPath(url: string)
    requires WellShaped(url)
    ensures Join(Split(url, '/')[2..], '/') == Netloc(url) + PathPart(url)
  {
    var p := Split(url, '/');
    var t := p[2..];
    if |p| == 3 {
      assert t == [p[2]];
    } else {
      assert t[1..] == p[3..];
      assert Join(t, '/') == t[0] + "/" + Join(t[1..], '/');
    }
  }

  lemma SpellOrigin(scheme: string, host: string, path: string)
    ensures (scheme + ":") + "/" + "" + "/" + (host + path) == (scheme + "://" + host) + path
  {
    assert "://" == ":" + "/" + "" + "/";
  }

  /** The origin is exactly what the URL starts with, and the rest is its path. */
  lemma OriginThenPath(url: string)
    requires WellShaped(url)
    ensures url == Origin(url) + PathPart(url)
    ensures StartsWith(url, Origin(url))
  {
    var p := Split(url, '/');
    var o, rest := Origin(url), PathPart(url);
    SplitRejoins(url, '/');
    JoinThree(p);
    JoinHostPath(url);
    assert p[0] == Scheme(url) + ":";
    SpellOrigin(Scheme(url), p[2], rest);
    assert url == o + rest;
    assert (o + rest)[..|o|] == o;
  }

  /** The origin splits into the scheme piece, the empty piece and the host. */
  lemma SplitOrigin(url: string)
    requires WellShaped(url)
    ensures Split(Origin(url), '/') == Split(url, '/')[..3]
  {
    var p := Split(url, '/');
    SplitPieces(url, '/');
    assert Origin(url) == p[0] + "/" + "" + "/" + p[2];
    SplitSnoc(p[0], '/', "");
    SplitSnoc(p[0] + "/" + "", '/', p[2]);
    SplitNoSeparator(p[0], '/');
  }

  /** A piece that can stand in a URL of the admitted shape: no `/` and nothing `urlparse` deletes. */
  predicate IsPlainPiece(p: string) {
    forall k :: 0 <= k < |p| ==> p[k] != '/' && p[k] != '\t' && p[k] != '\r' && p[k] != '\n'
  }

  /** Pieces that begin with a scheme, an empty piece and a host make a URL of the admitted shape that splits back into them. */
  lemma WellShapedOfPieces(parts: seq<string>)
    requires |parts| >= 3 && IsSchemePiece(parts[0]) && parts[1] == "" && IsHost(parts[2])
    requires forall k :: 0 <= k < |parts| ==> IsPlainPiece(parts[k])
    ensures Split(Join(parts, '/'), '/') == parts
    ensures WellShaped(Join(parts, '/'))
  {
    SplitJoin(parts, '/');
    JoinAvoids(parts, '/', '\t');
    JoinAvoids(parts, '/', '\r');
    JoinAvoids(parts, '/', '\n');
  }
}
