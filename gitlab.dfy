/**
 * gitlab-merge-commit-downloader.py: from a merge-request or commit URL of
 * the GitLab web interface to the REST API endpoints the script requests,
 * and from a changed file's path to the files and folders it writes.
 */
module GitLab {
  import opened Wrappers
  import opened Strings
  import opened Urls
  import opened Percent
  import opened Beautify
  import opened Files

  /** What stops a URL from being resolved. */
  datatype Error =
    | UnsupportedUrl   // not of the shape `scheme://host/...`, outside this model
    | IndexError       // `url.split("/")` has too few pieces for the indexing

  /** `gitlab_api`: the origin of the URL and `/api/v4/`; it ends in `/`. */
  function ApiRoot(url: string): (root: string)
    requires WellShaped(url)
    ensures StartsWith(root, Origin(url))
    ensures root[|root| - 1] == '/'
  {
    StartsWithConcat(Origin(url), "/api/v4/");
    Origin(url) + "/api/v4/"
  }

  /** The URL-encoded project path `namespace%2Fproject` from pieces 3 and 4. */
  function ProjectId(p: seq<string>): string
    requires |p| >= 5
  {
    p[3] + "%2F" + p[4]
  }

  /** A merge request: the project and the merge request's number within it. */
  datatype MergeRequestRef = MergeRequestRef(projectId: string, iid: string)

  /** The project id and IID that `Download_Code_From_MR` takes from the URL. */
  function ResolveMergeRequest(url: string): (r: Result<MergeRequestRef, Error>)
    ensures r == Failure(UnsupportedUrl) <==> !WellShaped(url)
    ensures r == Failure(IndexError) <==> WellShaped(url) && |Split(url, '/')| < 8
    ensures r.Success? ==> '/' !in r.value.projectId && '/' !in r.value.iid
  {
    if !WellShaped(url) then Failure(UnsupportedUrl)
    else
      var p := Split(url, '/');
      SplitPieces(url, '/');
      if |p| < 8 then Failure(IndexError)
      else Success(MergeRequestRef(ProjectId(p), p[7]))
  }

  /** The changes endpoint of the merge request: it fails as the URL does, and lies under `gitlab_api`. */
  function MergeRequestChangesUrl(url: string): (r: Result<string, Error>)
    ensures r.Failure? <==> ResolveMergeRequest(url).Failure?
    ensures r.Failure? ==> r.error == ResolveMergeRequest(url).error
    ensures r.Success? ==> WellShaped(url) && StartsWith(r.value, ApiRoot(url))
  {
    match ResolveMergeRequest(url)
    case Failure(e) => Failure(e)
    case Success(m) =>
      var rest := "projects/" + m.projectId + "/merge_requests/" + m.iid + "/changes";
      StartsWithConcat(ApiRoot(url), rest);
      assert ApiRoot(url) + "projects/" + m.projectId + "/merge_requests/" + m.iid + "/changes" == ApiRoot(url) + rest;
      Success(ApiRoot(url) + "projects/" + m.projectId + "/merge_requests/" + m.iid + "/changes")
  }

  /** Three more `/`-free pieces, each after a `/`, extend the split by those pieces. */
  lemma SplitSnoc3(s: string, a: string, b: string, c: string)
    requires '/' !in a && '/' !in b && '/' !in c
    ensures Split(s + "/" + a + "/" + b + "/" + c, '/') == Split(s, '/') + [a, b, c]
  {
    SplitSnoc(s, '/', a);
    SplitSnoc(s + "/" + a, '/', b);
    SplitSnoc(s + "/" + a + "/" + b, '/', c);
  }

  /** The changes endpoint, written one piece at a time. */
  lemma ChangesPathSpelled(o: string, id: string, iid: string)
    ensures o + "/api/v4/" + "projects/" + id + "/merge_requests/" + iid + "/changes" ==
      o + "/" + "api" + "/" + "v4" + "/" + "projects" + "/" + id + "/" + "merge_requests" + "/" + iid + "/" + "changes"
  {
    var x := o + "/api/v4/" + "projects/" + id;
    ProjectPathSpelled(o, id);
    assert x + "/merge_requests/" + iid + "/changes" == x + "/" + "merge_requests" + "/" + iid + "/" + "changes" by {
      assert "/merge_requests/" == "/" + "merge_requests" + "/";
      assert "/changes" == "/" + "changes";
    }
  }

  lemma ChangesPathPieces(o: string, id: string, iid: string)
    requires '/' !in id && '/' !in iid
    ensures Split(o + "/api/v4/" + "projects/" + id + "/merge_requests/" + iid + "/changes", '/') ==
      Split(o, '/') + ["api", "v4", "projects", id, "merge_requests", iid, "changes"]
  {
    var x := o + "/" + "api" + "/" + "v4" + "/" + "projects";
    var y := x + "/" + id + "/" + "merge_requests" + "/" + iid;
    ChangesPathSpelled(o, id, iid);
    PathWords();
    SplitSnoc3(o, "api", "v4", "projects");
    SplitSnoc3(x, id, "merge_requests", iid);
    SplitSnoc(y, '/', "changes");
  }

  /**
   * The changes endpoint is the URL's origin followed by the pieces
   * `api/v4/projects/<id>/merge_requests/<iid>/changes`.
   */
  lemma MergeRequestEndpointPieces(url: string)
    requires MergeRequestChangesUrl(url).Success?
    ensures var m := ResolveMergeRequest(url).value;
      Split(MergeRequestChangesUrl(url).value, '/') ==
        Split(url, '/')[..3] + ["api", "v4", "projects", m.projectId, "merge_requests", m.iid, "changes"]
  {
    var m := ResolveMergeRequest(url).value;
    SplitOrigin(url);
    ChangesPathPieces(Origin(url), m.projectId, m.iid);
  }

  /** Two URLs that agree on the pieces the resolver reads have the same changes endpoint. */
  lemma MergeRequestReadsOnly(u: string, w: string)
    requires WellShaped(u) && WellShaped(w)
    requires |Split(u, '/')| >= 8 && |Split(w, '/')| >= 8
    requires Split(u, '/')[..5] == Split(w, '/')[..5] && Split(u, '/')[7] == Split(w, '/')[7]
    ensures MergeRequestChangesUrl(u) == MergeRequestChangesUrl(w)
  {
    var p, q := Split(u, '/'), Split(w, '/');
    assert p[0] == q[0] && p[2] == q[2] && p[3] == q[3] && p[4] == q[4];
  }

  /** GitLab reads the project id as the URL-encoded path `namespace/project`. */
  lemma ProjectIdDecodes(p: seq<string>)
    requires |p| >= 5 && '%' !in p[3] && '%' !in p[4]
    ensures Unquote(ProjectId(p)) == Utf8String(p[3] + "/" + p[4])
  {
    var a, b, c := Utf8String(p[3]), Utf8String("/"), Utf8String(p[4]);
    assert ProjectId(p) == p[3] + ("%2F" + p[4]);
    UnquotePlain(p[3], "%2F" + p[4]);
    SlashEscape(p[4]);
    UnquotePlain(p[4], []);
    assert p[4] + [] == p[4];
    assert Unquote(p[4]) == c + [];
    assert Unquote(ProjectId(p)) == a + (b + c);
    Utf8Concat(p[3], "/");
    Utf8Concat(p[3] + "/", p[4]);
    AppendAssoc(a, b, c);
  }

  /** The commit hash, piece 7 of the URL up to its first `?`: the longest prefix of the piece without a `?`. */
  function CommitHash(piece: string): (hash: string)
    ensures '?' !in hash
    ensures StartsWith(piece, hash)
    ensures |hash| == |piece| || piece[|hash|] == '?'
  {
    var parts := Split(piece, '?');
    SplitPieces(piece, '?');
    SplitRejoins(piece, '?');
    assert |parts| > 1 ==> piece == parts[0] + "?" + Join(parts[1..], '?');
    parts[0]
  }

  /** A prefix of a piece without `c` holds no `c` either. */
  lemma PrefixAvoids(piece: string, prefix: string, c: char)
    requires StartsWith(piece, prefix) && c !in piece
    ensures c !in prefix
  {
    assert forall k :: 0 <= k < |prefix| ==> prefix[k] == piece[k];
  }

  /** A commit: the project and the commit's hash. */
  datatype CommitRef = CommitRef(projectId: string, hash: string)

  /** The project id and hash that `Download_Code_From_Commit_Url` takes from the URL. */
  function ResolveCommit(url: string): (r: Result<CommitRef, Error>)
    ensures r == Failure(UnsupportedUrl) <==> !WellShaped(url)
    ensures r == Failure(IndexError) <==> WellShaped(url) && |Split(url, '/')| < 8
    ensures r.Success? ==> '/' !in r.value.projectId && '/' !in r.value.hash && '?' !in r.value.hash
  {
    if !WellShaped(url) then Failure(UnsupportedUrl)
    else
      var p := Split(url, '/');
      SplitPieces(url, '/');
      if |p| < 8 then Failure(IndexError)
      else
        PrefixAvoids(p[7], CommitHash(p[7]), '/');
        Success(CommitRef(ProjectId(p), CommitHash(p[7])))
  }

  /** The diff endpoint of the commit: it fails as the URL does, and lies under `gitlab_api`. */
  function CommitDiffUrl(url: string): (r: Result<string, Error>)
    ensures r.Failure? <==> ResolveCommit(url).Failure?
    ensures r.Failure? ==> r.error == ResolveCommit(url).error
    ensures r.Success? ==> WellShaped(url) && StartsWith(r.value, ApiRoot(url))
  {
    match ResolveCommit(url)
    case Failure(e) => Failure(e)
    case Success(c) =>
      var rest := "projects/" + c.projectId + "/repository/commits/" + c.hash + "/diff";
      StartsWithConcat(ApiRoot(url), rest);
      assert ApiRoot(url) + "projects/" + c.projectId + "/repository/commits/" + c.hash + "/diff" == ApiRoot(url) + rest;
      Success(ApiRoot(url) + "projects/" + c.projectId + "/repository/commits/" + c.hash + "/diff")
  }

  /** `gitlab_api`, `projects/` and the id, written one piece at a time. */
  lemma ProjectPathSpelled(o: string, id: string)
    ensures o + "/api/v4/" + "projects/" + id == o + "/" + "api" + "/" + "v4" + "/" + "projects" + "/" + id
  {
    assert "/api/v4/" == "/" + "api" + "/" + "v4" + "/";
    assert "projects/" == "projects" + "/";
  }

  lemma DiffPathSpelled(o: string, id: string, hash: string)
    ensures o + "/api/v4/" + "projects/" + id + "/repository/commits/" + hash + "/diff" ==
      o + "/" + "api" + "/" + "v4" + "/" + "projects" + "/" + id + "/" + "repository" + "/" + "commits"
        + "/" + hash + "/" + "diff"
  {
    var x := o + "/api/v4/" + "projects/" + id;
    ProjectPathSpelled(o, id);
    assert x + "/repository/commits/" + hash + "/diff" == x + "/" + "repository" + "/" + "commits" + "/" + hash + "/" + "diff" by {
      assert "/repository/commits/" == "/" + "repository" + "/" + "commits" + "/";
      assert "/diff" == "/" + "diff";
    }
  }

  lemma DiffPathPieces(o: string, id: string, hash: string)
    requires '/' !in id && '/' !in hash
    ensures Split(o + "/api/v4/" + "projects/" + id + "/repository/commits/" + hash + "/diff", '/') ==
      Split(o, '/') + ["api", "v4", "projects", id, "repository", "commits", hash, "diff"]
  {
    var x := o + "/" + "api" + "/" + "v4" + "/" + "projects";
    var y := x + "/" + id + "/" + "repository" + "/" + "commits";
    var z := y + "/" + hash;
    DiffPathSpelled(o, id, hash);
    PathWords();
    SplitSnoc3(o, "api", "v4", "projects");
    SplitSnoc3(x, id, "repository", "commits");
    SplitSnoc(y, '/', hash);
    SplitSnoc(z, '/', "diff");
  }

  /**
   * The diff endpoint is the URL's origin followed by the pieces
   * `api/v4/projects/<id>/repository/commits/<hash>/diff`.
   */
  lemma CommitEndpointPieces(url: string)
    requires CommitDiffUrl(url).Success?
    ensures var c := ResolveCommit(url).value;
      Split(CommitDiffUrl(url).value, '/') ==
        Split(url, '/')[..3] + ["api", "v4", "projects", c.projectId, "repository", "commits", c.hash, "diff"]
  {
    var c := ResolveCommit(url).value;
    SplitOrigin(url);
    DiffPathPieces(Origin(url), c.projectId, c.hash);
  }

  /**
   * The raw-file URL of the full-file mode, as the script writes it:
   * `gitlab_api` already ends in `/`, and another `/` follows it.
   */
  function RawFileUrlAsWritten(url: string, filepath: string): (r: Result<string, Error>)
    ensures r.Failure? <==> ResolveCommit(url).Failure?
    ensures r.Failure? ==> r.error == ResolveCommit(url).error
    ensures r.Success? ==> WellShaped(url) && StartsWith(r.value, ApiRoot(url) + "/projects/")
  {
    match ResolveCommit(url)
    case Failure(e) => Failure(e)
    case Success(c) =>
      StartsWithChain(ApiRoot(url), "/projects/", c.projectId, "/repository/files/", Quote(filepath), "/raw?ref=", c.hash);
      Success(ApiRoot(url) + "/projects/" + c.projectId + "/repository/files/" + Quote(filepath) + "/raw?ref=" + c.hash)
  }

  /** The raw-file URL with `projects` directly under `api/v4`, as in the other two endpoints. */
  function RawFileUrl(url: string, filepath: string): (r: Result<string, Error>)
    ensures r.Failure? <==> ResolveCommit(url).Failure?
    ensures r.Failure? ==> r.error == ResolveCommit(url).error
    ensures r.Success? ==> WellShaped(url) && StartsWith(r.value, ApiRoot(url) + "projects/")
  {
    match ResolveCommit(url)
    case Failure(e) => Failure(e)
    case Success(c) =>
      StartsWithChain(ApiRoot(url), "projects/", c.projectId, "/repository/files/", Quote(filepath), "/raw?ref=", c.hash);
      Success(ApiRoot(url) + "projects/" + c.projectId + "/repository/files/" + Quote(filepath) + "/raw?ref=" + c.hash)
  }

  lemma FilesPathSpelled(x: string, file: string, hash: string)
    ensures x + "/repository/files/" + file + "/raw?ref=" + hash ==
      x + "/" + "repository" + "/" + "files" + "/" + file + "/" + ("raw?ref=" + hash)
  {
    assert "/repository/files/" == "/" + "repository" + "/" + "files" + "/";
    assert "/raw?ref=" == "/" + "raw?ref=";
  }

  lemma FilesPathPieces(x: string, file: string, hash: string)
    requires '/' !in file && '/' !in hash
    ensures Split(x + "/repository/files/" + file + "/raw?ref=" + hash, '/') ==
      Split(x, '/') + ["repository", "files", file, "raw?ref=" + hash]
  {
    FilesPathSpelled(x, file, hash);
    PathWords();
    SplitSnoc3(x, "repository", "files", file);
    SplitSnoc(x + "/" + "repository" + "/" + "files" + "/" + file, '/', "raw?ref=" + hash);
  }

  lemma RawPrefixSpelled(o: string, id: string)
    ensures o + "/api/v4/" + "/projects/" + id == o + "/" + "api" + "/" + "v4" + "/" + "" + "/" + "projects" + "/" + id
  {
    assert "/api/v4/" + "/projects/" == "/" + "api" + "/" + "v4" + "/" + "" + "/" + "projects" + "/";
  }

  /**
   * As written, the raw-file URL has an empty piece between `v4` and
   * `projects` (`api/v4//projects`), which neither the changes nor the diff
   * endpoint has.
   */
  lemma RawFileUrlAsWrittenPieces(url: string, filepath: string)
    requires RawFileUrlAsWritten(url, filepath).Success?
    ensures var c := ResolveCommit(url).value;
      Split(RawFileUrlAsWritten(url, filepath).value, '/') ==
        Split(url, '/')[..3] + ["api", "v4", "", "projects", c.projectId, "repository", "files", Quote(filepath), "raw?ref=" + c.hash]
    ensures Split(RawFileUrlAsWritten(url, filepath).value, '/')[5] == ""
  {
    var c := ResolveCommit(url).value;
    var o := Origin(url);
    var x := o + "/api/v4/" + "/projects/" + c.projectId;
    QuoteHasNoSlash(filepath);
    SplitOrigin(url);
    RawPrefixPieces(o, c.projectId);
    FilesPathPieces(x, Quote(filepath), c.hash);
  }

  lemma RawPrefixPieces(o: string, id: string)
    requires '/' !in id
    ensures Split(o + "/api/v4/" + "/projects/" + id, '/') == Split(o, '/') + ["api", "v4", "", "projects", id]
  {
    RawPrefixSpelled(o, id);
    PathWords();
    SplitSnoc3(o, "api", "v4", "");
    SplitSnoc(o + "/" + "api" + "/" + "v4" + "/" + "", '/', "projects");
    SplitSnoc(o + "/" + "api" + "/" + "v4" + "/" + "" + "/" + "projects", '/', id);
  }

  /**
   * The corrected raw-file URL: the diff endpoint's project prefix, then
   * `repository/files/<encoded path>/raw?ref=<hash>`, with the encoded path
   * as one piece.
   */
  lemma RawFileUrlPieces(url: string, filepath: string)
    requires RawFileUrl(url, filepath).Success?
    ensures var c := ResolveCommit(url).value;
      Split(RawFileUrl(url, filepath).value, '/') ==
        Split(url, '/')[..3] + ["api", "v4", "projects", c.projectId, "repository", "files", Quote(filepath), "raw?ref=" + c.hash]
  {
    var c := ResolveCommit(url).value;
    var o := Origin(url);
    var x := o + "/api/v4/" + "projects/" + c.projectId;
    QuoteHasNoSlash(filepath);
    SplitOrigin(url);
    ProjectPrefixPieces(o, c.projectId);
    FilesPathPieces(x, Quote(filepath), c.hash);
  }

  lemma ProjectPrefixPieces(o: string, id: string)
    requires '/' !in id
    ensures Split(o + "/api/v4/" + "projects/" + id, '/') == Split(o, '/') + ["api", "v4", "projects", id]
  {
    ProjectPathSpelled(o, id);
    PathWords();
    SplitSnoc3(o, "api", "v4", "projects");
    SplitSnoc(o + "/" + "api" + "/" + "v4" + "/" + "projects", '/', id);
  }

  /** The encoded path decodes to the file path's UTF-8 bytes, and the query names the commit. */
  lemma RawFileUrlQuery(url: string, filepath: string)
    requires RawFileUrl(url, filepath).Success?
    ensures Unquote(Quote(filepath)) == Utf8String(filepath)
    ensures Split("raw?ref=" + ResolveCommit(url).value.hash, '?') == ["raw", "ref=" + ResolveCommit(url).value.hash]
  {
    QuoteRoundTrip(filepath);
    QueryPieces(ResolveCommit(url).value.hash);
  }

  /** The fixed pieces of the endpoints hold no `/`. */
  lemma PathWords()
    ensures '/' !in "api" && '/' !in "v4" && '/' !in "projects" && '/' !in ""
    ensures '/' !in "merge_requests" && '/' !in "changes"
    ensures '/' !in "repository" && '/' !in "commits" && '/' !in "diff" && '/' !in "files"
  {
  }

  lemma QueryPieces(hash: string)
    requires '?' !in hash
    ensures Split("raw?ref=" + hash, '?') == ["raw", "ref=" + hash]
  {
    assert "raw?ref=" + hash == "raw" + "?" + ("ref=" + hash);
    SplitPrefix("raw", '?', "ref=" + hash);
    SplitNoSeparator("ref=" + hash, '?');
  }

  /** `filepath.split("/")[-1]`: the name of the file, which holds no `/`. */
  function FileName(filepath: string): (name: string)
    ensures '/' !in name
  {
    var parts := Split(filepath, '/');
    SplitPieces(filepath, '/');
    assert parts[|parts| - 1] == LastPiece(filepath, '/');
    LastPiece(filepath, '/')
  }

  /** `"/".join(filepath.split("/")[:-1])`: the folder the file goes in, never longer than the path. */
  function Folder(filepath: string): (folder: string)
    ensures |folder| <= |filepath|
  {
    if '/' in filepath then PiecesRejoin(filepath, '/'); AllButLastPiece(filepath, '/')
    else OnePiece(filepath, '/'); AllButLastPiece(filepath, '/')
  }

  /** The folder and the name put together give the path back; the name holds no `/`. */
  lemma FolderAndName(filepath: string)
    ensures '/' !in FileName(filepath)
    ensures '/' in filepath ==> Folder(filepath) + "/" + FileName(filepath) == filepath
    ensures '/' !in filepath ==> Folder(filepath) == "" && FileName(filepath) == filepath
  {
    if '/' in filepath {
      PiecesRejoin(filepath, '/');
    } else {
      OnePiece(filepath, '/');
    }
  }

  /** For a path split at its last `/`, the part before is empty exactly when that `/` is the only one and leads. */
  lemma EmptyBeforeLastSlash(f: string, n: string)
    requires '/' !in n
    ensures f == "" <==> Count('/', f + "/" + n) == 1 && (f + "/" + n)[0] == '/'
  {
    var fp := f + "/" + n;
    CountConcat('/', f + "/", n);
    CountConcat('/', f, "/");
    CountAbsent('/', n);
    assert Count('/', "/") == 1;
    if f != "" {
      assert fp[0] == f[0];
      if f[0] == '/' {
        CountPresent('/', f);
      }
    }
  }

  /** The folder is empty exactly when the path has no `/`, or only a leading one. */
  lemma FolderEmptyIff(filepath: string)
    ensures Folder(filepath) == "" <==>
      Count('/', filepath) == 0 || (Count('/', filepath) == 1 && filepath[0] == '/')
  {
    FolderAndName(filepath);
    if '/' !in filepath {
      CountAbsent('/', filepath);
    } else {
      CountPresent('/', filepath);
      EmptyBeforeLastSlash(Folder(filepath), FileName(filepath));
    }
  }

  /** The folder `save_diff_to_file` creates before writing, if any. */
  function FolderToCreate(filepath: string): Option<string>
  {
    if Folder(filepath) != "" then Some(Folder(filepath)) else None
  }

  /** `save_diff_to_file`: the folder it creates (if any) and what the file holds once `beautify_file` has rewritten it. */
  method SaveDiffToFile(filepath: string, codediff: string) returns (folder: Option<string>, contents: string)
    ensures folder == FolderToCreate(filepath)
    ensures contents == BeautifyText(KeepRemoved, codediff)
  {
    var f := Folder(filepath);
    if f != "" {
      folder := Some(f);
    } else {
      folder := None;
    }
    contents := BeautifyFileKeepingRemoved(codediff);
  }

  /** One entry of a response: the changed file's `new_path` and its `diff`. */
  datatype Change = Change(newPath: string, diff: string)

  /** The writes `save_diff_to_file` makes for the changes, in order: each path with the rewrite of its diff. */
  function FileWrites(changes: seq<Change>): (w: seq<(string, string)>)
    ensures |w| == |changes|
    ensures forall i :: 0 <= i < |changes| ==> w[i] == (changes[i].newPath, BeautifyText(KeepRemoved, changes[i].diff))
  {
    seq(|changes|, i requires 0 <= i < |changes| => (changes[i].newPath, BeautifyText(KeepRemoved, changes[i].diff)))
  }

  /** The files a run of `save_diff_to_file` over the changes leaves behind: a later change to the same path overwrites an earlier one. */
  function Written(changes: seq<Change>): map<string, string>
  {
    Overwrite(map[], FileWrites(changes))
  }

  /** The folders a run of `save_diff_to_file` over the changes creates. */
  function FoldersOf(changes: seq<Change>): set<string>
    decreases |changes|
  {
    if changes == [] then {}
    else
      var c := changes[|changes| - 1];
      FoldersOf(changes[..|changes| - 1]) + (if Folder(c.newPath) != "" then {Folder(c.newPath)} else {})
  }

  /** One more change writes its path with the rewrite of its diff. */
  lemma WrittenStep(changes: seq<Change>, i: nat)
    requires i < |changes|
    ensures Written(changes[..i + 1]) ==
      Written(changes[..i])[changes[i].newPath := BeautifyText(KeepRemoved, changes[i].diff)]
  {
    var w := (changes[i].newPath, BeautifyText(KeepRemoved, changes[i].diff));
    assert FileWrites(changes[..i + 1]) == FileWrites(changes[..i]) + [w];
    OverwriteSnoc(map[], FileWrites(changes[..i]), w);
  }

  /** Exactly the paths of the changes are written. */
  lemma WrittenPaths(changes: seq<Change>, path: string)
    ensures path in Written(changes) <==> exists i :: 0 <= i < |changes| && changes[i].newPath == path
  {
    var w := FileWrites(changes);
    OverwriteKeys(map[], w, path);
    if path in Written(changes) {
      var i :| 0 <= i < |w| && w[i].0 == path;
      assert changes[i].newPath == path;
    }
    if exists i :: 0 <= i < |changes| && changes[i].newPath == path {
      var i :| 0 <= i < |changes| && changes[i].newPath == path;
      assert w[i].0 == path;
    }
  }

  /** A path holds the rewrite of the last change made to it. */
  lemma LastWriteWins(changes: seq<Change>, i: nat)
    requires i < |changes|
    requires forall j :: i < j < |changes| ==> changes[j].newPath != changes[i].newPath
    ensures changes[i].newPath in Written(changes)
    ensures Written(changes)[changes[i].newPath] == BeautifyText(KeepRemoved, changes[i].diff)
  {
    var w := FileWrites(changes);
    assert forall j :: i < j < |w| ==> w[j].0 == changes[j].newPath;
    OverwriteLast(map[], w, i);
  }

  /** A folder is created exactly when the path of some change lies below it. */
  lemma {:induction false} FoldersCreated(changes: seq<Change>, folder: string)
    ensures folder in FoldersOf(changes) <==>
      exists i :: 0 <= i < |changes| && FolderToCreate(changes[i].newPath) == Some(folder)
    decreases |changes|
  {
    if changes != [] {
      var n := |changes| - 1;
      var init := changes[..n];
      FoldersCreated(init, folder);
      if folder in FoldersOf(init) {
        var i :| 0 <= i < |init| && FolderToCreate(init[i].newPath) == Some(folder);
        assert changes[i] == init[i];
      }
      if exists i :: 0 <= i < |changes| && FolderToCreate(changes[i].newPath) == Some(folder) {
        var i :| 0 <= i < |changes| && FolderToCreate(changes[i].newPath) == Some(folder);
        if i < n {
          assert init[i] == changes[i];
        }
      }
    }
  }

  /** Every folder created is the folder of a file written, which lies directly in it. */
  lemma FolderHoldsFile(changes: seq<Change>, folder: string)
    requires folder in FoldersOf(changes)
    ensures exists path :: path in Written(changes) && path == folder + "/" + FileName(path)
  {
    FoldersCreated(changes, folder);
    var i :| 0 <= i < |changes| && FolderToCreate(changes[i].newPath) == Some(folder);
    var path := changes[i].newPath;
    WrittenPaths(changes, path);
    FolderAndName(path);
  }

  /** The loop of `Download_Code_From_MR` over the changes of the response. */
  method SaveChanges(changes: seq<Change>) returns (files: map<string, string>, folders: set<string>)
    ensures files == Written(changes)
    ensures folders == FoldersOf(changes)
  {
    files, folders := map[], {};
    for i := 0 to |changes|
      invariant files == Written(changes[..i])
      invariant folders == FoldersOf(changes[..i])
    {
      var filepath, diff := changes[i].newPath, changes[i].diff;
      var folder, contents := SaveDiffToFile(filepath, diff);
      if folder.Some? {
        folders := folders + {folder.value};
      }
      files := files[filepath := contents];
      WrittenStep(changes, i);
      assert changes[..i + 1][..i] == changes[..i];
    }
    assert changes[..|changes|] == changes;
  }

  /** What a download leaves behind: the endpoint requested, the files written and the folders created. */
  datatype Saved = Saved(endpoint: string, files: map<string, string>, folders: set<string>)

  /**
   * `Download_Code_From_MR`, given the `changes` of the response: the URL is
   * resolved first, and nothing is written when that fails.
   */
  method DownloadCodeFromMr(url: string, changes: seq<Change>) returns (r: Result<Saved, Error>)
    ensures r.Failure? <==> MergeRequestChangesUrl(url).Failure?
    ensures r.Failure? ==> r.error == MergeRequestChangesUrl(url).error
    ensures r.Success? ==>
      r.value == Saved(MergeRequestChangesUrl(url).value, Written(changes), FoldersOf(changes))
  {
    var endpoint := MergeRequestChangesUrl(url);
    if endpoint.Failure? {
      return Failure(endpoint.error);
    }
    var files, folders := SaveChanges(changes);
    r := Success(Saved(endpoint.value, files, folders));
  }

  /**
   * What `Download_Code_From_Commit_Url` saves for each entry: its `diff`,
   * or in full-file mode the text the raw-file request returned for it.
   */
  function CodeDiffs(items: seq<Change>, fullFile: bool, rawTexts: seq<string>): (saved: seq<Change>)
    requires |rawTexts| == |items|
    ensures |saved| == |items|
    ensures forall i :: 0 <= i < |items| ==> saved[i].newPath == items[i].newPath
    ensures forall i :: 0 <= i < |items| ==> saved[i].diff == if fullFile then rawTexts[i] else items[i].diff
  {
    seq(|items|, i requires 0 <= i < |items| => Change(items[i].newPath, if fullFile then rawTexts[i] else items[i].diff))
  }

  /** The raw-file requests of full-file mode, one per entry, in order, at the URL the script builds. */
  function RawRequests(url: string, items: seq<Change>): (rs: seq<string>)
    requires ResolveCommit(url).Success?
    ensures |rs| == |items|
    ensures forall i :: 0 <= i < |items| ==> Success(rs[i]) == RawFileUrlAsWritten(url, items[i].newPath)
  {
    seq(|items|, i requires 0 <= i < |items| => RawFileUrlAsWritten(url, items[i].newPath).value)
  }

  /** One more change extends the files written and the folders created by that change. */
  lemma SavedStep(saved: seq<Change>, i: nat)
    requires i < |saved|
    ensures Written(saved[..i + 1]) == Written(saved[..i])[saved[i].newPath := BeautifyText(KeepRemoved, saved[i].diff)]
    ensures FoldersOf(saved[..i + 1]) ==
      FoldersOf(saved[..i]) + (if Folder(saved[i].newPath) != "" then {Folder(saved[i].newPath)} else {})
  {
    WrittenStep(saved, i);
    assert saved[..i + 1][..i] == saved[..i];
  }

  lemma RequestsStep(url: string, items: seq<Change>, i: nat)
    requires ResolveCommit(url).Success? && i < |items|
    ensures RawRequests(url, items[..i + 1]) == RawRequests(url, items[..i]) + [RawFileUrlAsWritten(url, items[i].newPath).value]
  {
  }

  /**
   * One entry of the loop of `Download_Code_From_Commit_Url`: the raw-file
   * request of full-file mode, then the folder and the file it saves.
   */
  method SaveCommitEntry(url: string, item: Change, fullFile: bool, rawText: string)
    returns (request: seq<string>, folder: Option<string>, contents: string)
    requires ResolveCommit(url).Success?
    ensures request == if fullFile then [RawFileUrlAsWritten(url, item.newPath).value] else []
    ensures folder == FolderToCreate(item.newPath)
    ensures contents == BeautifyText(KeepRemoved, if fullFile then rawText else item.diff)
  {
    var codediff;
    if fullFile {
      var rawFileUrl := RawFileUrlAsWritten(url, item.newPath);
      request := [rawFileUrl.value];
      codediff := rawText;
    } else {
      request := [];
      codediff := item.diff;
    }
    folder, contents := SaveDiffToFile(item.newPath, codediff);
  }

  /** What a commit download leaves behind, with the raw-file requests of full-file mode. */
  datatype CommitSaved = CommitSaved(endpoint: string, rawRequests: seq<string>, files: map<string, string>, folders: set<string>)

  /**
   * `Download_Code_From_Commit_Url`, given the entries of the diff response
   * and, for full-file mode, the texts the raw-file requests return, in
   * order.
   */
  method DownloadCodeFromCommitUrl(url: string, items: seq<Change>, fullFile: bool, rawTexts: seq<string>)
    returns (r: Result<CommitSaved, Error>)
    requires |rawTexts| == |items|
    ensures r.Failure? <==> CommitDiffUrl(url).Failure?
    ensures r.Failure? ==> r.error == CommitDiffUrl(url).error
    ensures r.Success? ==> ResolveCommit(url).Success? && r.value == CommitSaved(
      CommitDiffUrl(url).value,
      if fullFile then RawRequests(url, items) else [],
      Written(CodeDiffs(items, fullFile, rawTexts)),
      FoldersOf(CodeDiffs(items, fullFile, rawTexts)))
  {
    var endpoint := CommitDiffUrl(url);
    if endpoint.Failure? {
      return Failure(endpoint.error);
    }
    ghost var saved := CodeDiffs(items, fullFile, rawTexts);
    var requests: seq<string> := [];
    var files: map<string, string>, folders: set<string> := map[], {};
    for i := 0 to |items|
      invariant fullFile ==> requests == RawRequests(url, items[..i])
      invariant !fullFile ==> requests == []
      invariant files == Written(saved[..i])
      invariant folders == FoldersOf(saved[..i])
    {
      var request, folder, contents := SaveCommitEntry(url, items[i], fullFile, rawTexts[i]);
      assert saved[i] == Change(items[i].newPath, if fullFile then rawTexts[i] else items[i].diff);
      requests := requests + request;
      if folder.Some? {
        folders := folders + {folder.value};
      }
      files := files[items[i].newPath := contents];
      SavedStep(saved, i);
      if fullFile {
        RequestsStep(url, items, i);
      }
    }
    assert saved[..|items|] == saved;
    assert items[..|items|] == items;
    r := Success(CommitSaved(endpoint.value, requests, files, folders));
  }

  /**
   * `git_verify_url` of `verify_gitlab_token`: it lies under `gitlab_api`, like every endpoint,
   * and is the origin followed by the pieces `api/v4/personal_access_tokens/self`.
   */
  function VerifyUrl(url: string): (v: string)
    requires WellShaped(url)
    ensures StartsWith(v, ApiRoot(url))
    ensures Split(v, '/') == Split(url, '/')[..3] + ["api", "v4", "personal_access_tokens", "self"]
  {
    SpellVerifyUrl(Origin(url));
    StartsWithConcat(ApiRoot(url), "personal_access_tokens/self");
    VerifyPieces(Origin(url));
    SplitOrigin(url);
    Origin(url) + "/api/v4/personal_access_tokens/self"
  }

  lemma SpellVerifyUrl(o: string)
    ensures o + "/api/v4/personal_access_tokens/self" == (o + "/api/v4/") + "personal_access_tokens/self"
  {
    assert "/api/v4/personal_access_tokens/self" == "/api/v4/" + "personal_access_tokens/self";
  }

  lemma SpellVerifyPieces(o: string)
    ensures o + "/api/v4/personal_access_tokens/self" ==
      o + "/" + "api" + "/" + "v4" + "/" + "personal_access_tokens" + "/" + "self"
  {
    var a, b := "/" + "api" + "/" + "v4" + "/", "personal_access_tokens" + "/" + "self";
    assert "/api/v4/" == a;
    assert "personal_access_tokens/self" == b;
    SpellVerifyUrl(o);
    AppendAssoc(o, a, b);
  }

  lemma VerifyPieces(o: string)
    ensures Split(o + "/api/v4/personal_access_tokens/self", '/') ==
      Split(o, '/') + ["api", "v4", "personal_access_tokens", "self"]
  {
    var x := o + "/" + "api" + "/" + "v4" + "/" + "personal_access_tokens";
    SpellVerifyPieces(o);
    assert '/' !in "api" && '/' !in "v4" && '/' !in "personal_access_tokens" && '/' !in "self";
    SplitSnoc3(o, "api", "v4", "personal_access_tokens");
    SplitSnoc(x, '/', "self");
  }

  /** The merge request resolved from its pieces. */
  lemma ResolveMergeRequestOfPieces(parts: seq<string>)
    requires |parts| >= 8 && IsSchemePiece(parts[0]) && parts[1] == "" && IsHost(parts[2])
    requires forall k :: 0 <= k < |parts| ==> IsPlainPiece(parts[k])
    ensures ResolveMergeRequest(Join(parts, '/')) == Success(MergeRequestRef(parts[3] + "%2F" + parts[4], parts[7]))
  {
    WellShapedOfPieces(parts);
  }

  /** The commit resolved from its pieces: the project from pieces 3 and 4, the hash from piece 7. */
  lemma ResolveCommitOfPieces(parts: seq<string>)
    requires |parts| >= 8 && IsSchemePiece(parts[0]) && parts[1] == "" && IsHost(parts[2])
    requires forall k :: 0 <= k < |parts| ==> IsPlainPiece(parts[k])
    ensures ResolveCommit(Join(parts, '/')) == Success(CommitRef(parts[3] + "%2F" + parts[4], CommitHash(parts[7])))
  {
    WellShapedOfPieces(parts);
  }

  lemma SpellExampleId(r: Result<MergeRequestRef, Error>)
    requires r == Success(MergeRequestRef("projectname" + "%2F" + "subproject", "177"))
    ensures r == Success(MergeRequestRef("projectname%2Fsubproject", "177"))
  {
    assert "projectname" + "%2F" + "subproject" == "projectname%2Fsubproject";
  }

  lemma ExamplePiecesPlain()
    ensures IsSchemePiece("https:")
    ensures IsPlainPiece("https:") && IsPlainPiece("") && IsPlainPiece("projectname") && IsPlainPiece("subproject")
    ensures IsPlainPiece("-") && IsPlainPiece("merge_requests") && IsPlainPiece("177")
  {
  }

  /** The example merge request URL of the script, on any host: `https://<host>/projectname/subproject/-/merge_requests/177`. */
  lemma ExampleMergeRequest(host: string)
    requires IsHost(host) && IsPlainPiece(host)
    ensures var parts := ["https:", "", host, "projectname", "subproject", "-", "merge_requests", "177"];
      ResolveMergeRequest(Join(parts, '/')) == Success(MergeRequestRef("projectname%2Fsubproject", "177"))
  {
    var parts := ["https:", "", host, "projectname", "subproject", "-", "merge_requests", "177"];
    ExamplePiecesPlain();
    ResolveMergeRequestOfPieces(parts);
    SpellExampleId(ResolveMergeRequest(Join(parts, '/')));
  }

  /** The hash is the piece up to its first `?`. */
  lemma CommitHashBeforeQuery(hash: string, query: string)
    requires '?' !in hash
    ensures CommitHash(hash + "?" + query) == hash
  {
    SplitPrefix(hash, '?', query);
  }

  /** A commit URL with a query: `.../-/commit/0a1b2c?view=parallel` names the commit `0a1b2c`. */
  lemma ExampleCommitHash()
    ensures CommitHash("0a1b2c?view=parallel") == "0a1b2c"
  {
    assert "0a1b2c?view=parallel" == "0a1b2c" + "?" + "view=parallel";
    CommitHashBeforeQuery("0a1b2c", "view=parallel");
  }
}
