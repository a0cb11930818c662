/**
 * github-mr-commits-downloader.py: from a pull request URL of a GitHub
 * Enterprise host to the REST API v3 endpoint the script requests, and the
 * URL of its token check. Its `save_diff_to_file` and `beautify_file` are
 * those of the GitLab script (`GitLab.FolderAndName`, `Beautify` with
 * `KeepRemoved`).
 */
module GitHub {
  import opened Wrappers
  import opened Strings
  import opened Urls
  import GitLab

  /** `get_github_api_baseurl`: the origin of the URL, then the pieces `api` and `v3`. */
  function ApiBase(url: string): (base: string)
    requires WellShaped(url)
    ensures StartsWith(base, Origin(url))
    ensures Split(base, '/') == Split(url, '/')[..3] + ["api", "v3"]
  {
    StartsWithConcat(Origin(url), "/api/v3");
    BasePieces(Origin(url));
    SplitOrigin(url);
    Origin(url) + "/api/v3"
  }

  lemma BasePieces(o: string)
    ensures Split(o + "/api/v3", '/') == Split(o, '/') + ["api", "v3"]
  {
    assert o + "/api/v3" == o + "/" + "api" + "/" + "v3";
    assert '/' !in "api" && '/' !in "v3";
    SplitSnoc(o, '/', "api");
    SplitSnoc(o + "/" + "api", '/', "v3");
  }

  /** `git_verify_url` of `verify_github_token`: the API base, then the piece `user`. */
  function VerifyUrl(url: string): (v: string)
    requires WellShaped(url)
    ensures StartsWith(v, ApiBase(url))
    ensures Split(v, '/') == Split(url, '/')[..3] + ["api", "v3", "user"]
  {
    StartsWithConcat(ApiBase(url), "/user");
    assert ApiBase(url) + "/user" == ApiBase(url) + "/" + "user";
    assert '/' !in "user";
    SplitSnoc(ApiBase(url), '/', "user");
    assert Split(url, '/')[..3] + ["api", "v3"] + ["user"] == Split(url, '/')[..3] + ["api", "v3", "user"];
    ApiBase(url) + "/user"
  }

  /** A pull request: its organisation, its repository and its number. */
  datatype PullRequestRef = PullRequestRef(org: string, repo: string, number: string)

  /**
   * `pr_url.split("/")[3:]` and its pieces 0, 1 and 3; piece 2 (the web
   * interface's `pull`) is not read.
   */
  function ResolvePullRequest(url: string): (r: Result<PullRequestRef, GitLab.Error>)
    ensures r == Failure(GitLab.UnsupportedUrl) <==> !WellShaped(url)
    ensures r == Failure(GitLab.IndexError) <==> WellShaped(url) && |Split(url, '/')| < 7
    ensures r.Success? ==> '/' !in r.value.org && '/' !in r.value.repo && '/' !in r.value.number
  {
    if !WellShaped(url) then Failure(GitLab.UnsupportedUrl)
    else
      var s := Split(url, '/')[3..];
      SplitPieces(url, '/');
      if |s| < 4 then Failure(GitLab.IndexError)
      else Success(PullRequestRef(s[0], s[1], s[3]))
  }

  /** `final_api_url` of `Download_Code_From_PR_Url`: it fails as the URL does, and lies under the API base's `/repos/`. */
  function PullRequestUrl(url: string): (r: Result<string, GitLab.Error>)
    ensures r.Failure? <==> ResolvePullRequest(url).Failure?
    ensures r.Failure? ==> r.error == ResolvePullRequest(url).error
    ensures r.Success? ==> WellShaped(url) && StartsWith(r.value, ApiBase(url) + "/repos/")
  {
    match ResolvePullRequest(url)
    case Failure(e) => Failure(e)
    case Success(pr) =>
      var b := ApiBase(url) + "/repos/";
      var rest := pr.org + "/" + pr.repo + "/" + "pulls" + "/" + pr.number;
      StartsWithConcat(b, rest);
      assert ApiBase(url) + "/repos/" + pr.org + "/" + pr.repo + "/" + "pulls" + "/" + pr.number == b + rest;
      Success(ApiBase(url) + "/repos/" + pr.org + "/" + pr.repo + "/" + "pulls" + "/" + pr.number)
  }

  /** The endpoint, written one piece at a time. */
  lemma EndpointSpelled(o: string, org: string, repo: string, number: string)
    ensures o + "/api/v3" + "/repos/" + org + "/" + repo + "/" + "pulls" + "/" + number ==
      o + "/" + "api" + "/" + "v3" + "/" + "repos" + "/" + org + "/" + repo + "/" + "pulls" + "/" + number
  {
    assert "/api/v3" == "/" + "api" + "/" + "v3";
    assert "/repos/" == "/" + "repos" + "/";
  }

  lemma EndpointPiecesOf(o: string, org: string, repo: string, number: string)
    requires '/' !in org && '/' !in repo && '/' !in number
    ensures Split(o + "/api/v3" + "/repos/" + org + "/" + repo + "/" + "pulls" + "/" + number, '/') ==
      Split(o, '/') + ["api", "v3", "repos", org, repo, "pulls", number]
  {
    var x := o + "/" + "api" + "/" + "v3" + "/" + "repos";
    var y := x + "/" + org + "/" + repo + "/" + "pulls";
    EndpointSpelled(o, org, repo, number);
    assert '/' !in "api" && '/' !in "v3" && '/' !in "repos" && '/' !in "pulls";
    GitLab.SplitSnoc3(o, "api", "v3", "repos");
    GitLab.SplitSnoc3(x, org, repo, "pulls");
    SplitSnoc(y, '/', number);
  }

  /**
   * The endpoint is the URL's origin followed by the pieces
   * `api/v3/repos/<org>/<repo>/pulls/<number>`, where org, repo and
   * number are pieces 3, 4 and 6 of the URL.
   */
  lemma PullRequestEndpointPieces(url: string)
    requires PullRequestUrl(url).Success?
    ensures var p := Split(url, '/');
      |p| >= 7 &&
      Split(PullRequestUrl(url).value, '/') == p[..3] + ["api", "v3", "repos", p[3], p[4], "pulls", p[6]]
  {
    var pr := ResolvePullRequest(url).value;
    SplitOrigin(url);
    EndpointPiecesOf(Origin(url), pr.org, pr.repo, pr.number);
  }

  /** The origin depends on nothing but the first three pieces. */
  lemma OriginOfPieces(u: string, w: string)
    requires WellShaped(u) && WellShaped(w)
    requires Split(u, '/')[..3] == Split(w, '/')[..3]
    ensures Origin(u) == Origin(w)
  {
    SplitOrigin(u);
    SplitOrigin(w);
    SplitRejoins(Origin(u), '/');
    SplitRejoins(Origin(w), '/');
  }

  /**
   * Two URLs that agree on the origin and on pieces 3, 4 and 6 have the same
   * endpoint, whatever their piece 5 (`pull`) and the pieces after 6.
   */
  lemma PullRequestReadsOnly(u: string, w: string)
    requires WellShaped(u) && WellShaped(w)
    requires |Split(u, '/')| >= 7 && |Split(w, '/')| >= 7
    requires var p, q := Split(u, '/'), Split(w, '/');
      p[..3] == q[..3] && p[3] == q[3] && p[4] == q[4] && p[6] == q[6]
    ensures PullRequestUrl(u) == PullRequestUrl(w)
  {
    OriginOfPieces(u, w);
  }

  lemma ExampleSpelled(host: string)
    ensures ("https:"[..5] + "://" + host) + "/api/v3" + "/repos/" + "org" + "/" + "repo" + "/" + "pulls" + "/" + "42" ==
      "https://" + host + "/api/v3/repos/org/repo/pulls/42"
  {
    assert "https:"[..5] == "https";
    assert "/api/v3" + "/repos/" + "org" + "/" + "repo" + "/" + "pulls" + "/" + "42" == "/api/v3/repos/org/repo/pulls/42";
  }

  /** `https://<host>/org/repo/pull/42` is requested at `https://<host>/api/v3/repos/org/repo/pulls/42`. */
  lemma ExamplePullRequest(host: string)
    requires IsHost(host) && IsPlainPiece(host)
    ensures PullRequestUrl(Join(["https:", "", host, "org", "repo", "pull", "42"], '/')) ==
      Success("https://" + host + "/api/v3/repos/org/repo/pulls/42")
  {
    var parts := ["https:", "", host, "org", "repo", "pull", "42"];
    assert IsSchemePiece("https:");
    assert IsPlainPiece("https:") && IsPlainPiece("") && IsPlainPiece("org") && IsPlainPiece("repo");
    assert IsPlainPiece("pull") && IsPlainPiece("42");
    WellShapedOfPieces(parts);
    ExampleSpelled(host);
  }
}
