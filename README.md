# gitlab-mr-jiraepic-fetcher, modelled in Dafny

The repository is three command-line scripts. Each one fetches a code
review's changed files over a REST API and writes every changed file to
disk as readable code:

- `gitlab-merge-commit-downloader.py` takes a GitLab merge request or commit URL.
- `jira-epic-mr-downloader.py` takes a Jira epic. It finds the GitLab merge requests linked in the comments of the epic's issues.
- `github-mr-commits-downloader.py` takes a GitHub Enterprise pull request URL.

This project models the string logic at the core of the scripts and proves
properties of it:

- **Beautify** is `beautify_file`. It reads the downloaded diff back line by
  line. A `+` line loses its first character. A `-` line either loses its
  first character (GitLab and GitHub, `Variant.KeepRemoved`) or is dropped
  (Jira, `Variant.DropRemoved`). Every other line has each hunk header
  `@@ -a,b +c,d @@ ` removed.
  - `BeautifyLine`, `Beautify` and `BeautifyText` are functions on strings.
  - The accumulator loops are the methods `BeautifyFileKeepingRemoved` and
    `BeautifyFileDroppingRemoved`. Each is proved equal to `BeautifyText`.
- **HunkHeader** is the `re.sub` of the hunk-header pattern. It uses a
  deterministic matcher for `@@ -\d+,\d+ \+\d+,\d+ @@ `, proved equal to the
  regular expression's meaning (`Denotes`). Then a left-to-right scan drops
  every match and resumes after it. The scan is not anchored.
- **Strings** holds Python's `str.split` and `str.join`, text-mode reading
  (universal newlines) and line iteration.
- **Urls** holds the URL shape `scheme://host/...`. On that shape,
  `urlparse` and `split("/")` agree on the origin, except for the non-ASCII
  hosts listed under "## Left out", on which `urlparse` raises.
- **Percent** holds `urllib.parse.quote(s, safe='')` over UTF-8, and its
  inverse.
- **Files** models the file system as a map from path to contents, with
  writes that overwrite.
- **GitLab** covers:
  - resolving merge request and commit URLs to their API endpoints;
  - the raw-file URL of full-file mode;
  - `save_diff_to_file`;
  - the download loops over the response's changes;
  - the token-check URL.
- **Jira** covers:
  - the epic's key and its JQL query;
  - extracting the merge request link from a comment;
  - the target path under `jira-007-output/<epic>/`;
  - `create_diff_file`;
  - the loop over the changes, which stops at the first one that raises;
  - the loop over an issue's comments with its two `try` levels.
- **GitHub** covers the API base, the token-check URL and the pull request
  endpoint.

Network responses are inputs of the model:

- GitLab: the `changes` list of the response, and the raw-file texts.
- Jira: a map from each changes endpoint to the `changes` of its answer, and
  the comment bodies of an issue.

In the code, the hunk-header `re.sub` is applied anywhere in a line, not only
at its start. Its result is not idempotent on every input. Two lemmas show
inputs where a second pass changes the output again:
`HunkHeader.RemovalFormsHeader` and `Beautify.NotIdempotentOnDoubleAdd`.

## Model

| member | source | states |
|---|---|---|
| Beautify.BeautifyFileKeepingRemoved | gitlab-merge-commit-downloader.py:104-115 | The accumulator loop writes exactly `BeautifyText(KeepRemoved, text)`: each line's contribution, in the order text-mode reading yields the lines. github-mr-commits-downloader.py:78-89 is the same code. |
| Beautify.BeautifyFileDroppingRemoved | jira-epic-mr-downloader.py:149-162 | The same loop, whose `continue` drops `-` lines, writes exactly `BeautifyText(DropRemoved, text)`. |
| Beautify.BeautifyAppend | gitlab-merge-commit-downloader.py:106-112 | The output for the lines `xs + ys` is the output for `xs` followed by the output for `ys`, so the file is the in-order concatenation of per-line results. |
| Beautify.AddedLine | gitlab-merge-commit-downloader.py:108-109 | A `+` line contributes itself without its first character, in both variants. No header is removed from it. |
| Beautify.RemovedLine | jira-epic-mr-downloader.py:153-156 | A `-` line loses only its first character when removed code is kept (GitLab, GitHub). It contributes nothing in the Jira variant. |
| Beautify.ContextLine | gitlab-merge-commit-downloader.py:110-112 | Any other line is kept unchanged exactly when it holds no hunk header, and it keeps its line breaks. |
| Beautify.ContextLineRewrite | gitlab-merge-commit-downloader.py:110-111 | A line whose first character is neither `+` nor `-` is rewritten by the `re.sub` alone. |
| Beautify.VariantsAgree | jira-epic-mr-downloader.py:152-159 | The Jira variant and the GitLab variant give the same output on every diff in which no line starts with `-`. |
| Beautify.ReplacedLine | gitlab-merge-commit-downloader.py:108-109 | A removed line followed by an added line gives old + new when removed code is kept, and only new in the Jira variant. |
| Beautify.BeautifyNewlines | gitlab-merge-commit-downloader.py:106-112 | Keeping removed code keeps the number of line breaks. Dropping `-` lines never adds one. |
| Beautify.BeautifyLine | gitlab-merge-commit-downloader.py:108-111 | What one line contributes: the if/elif on its first character. It is never longer than the line. Its partners are `AddedLine`, `RemovedLine` and `ContextLine`. |
| Beautify.Beautify | gitlab-merge-commit-downloader.py:106-112 | The contributions of the lines in order, as `+=` builds them. The result is never longer than the lines together. The partner is `BeautifyAppend`. |
| Beautify.BeautifyText | gitlab-merge-commit-downloader.py:104-112 | The rewrite of a file's text as text-mode reading yields its lines. It is never longer than the text. |
| Beautify.PlainTextUnchanged | gitlab-merge-commit-downloader.py:107-112 | A text with no `+` or `-` line and no hunk header is written back unchanged. |
| Beautify.ExampleAddedHeaderKept | gitlab-merge-commit-downloader.py:108-111 | A header inside a `+` line is not removed, because only the other lines go through `re.sub`. |
| Beautify.BeautifySingleLine | gitlab-merge-commit-downloader.py:105-107 | A text of one line, which ends in a line break and has no carriage return, is read back as that line. |
| Beautify.NotIdempotentOnDoubleAdd | gitlab-merge-commit-downloader.py:108-109 | Rewriting twice differs from rewriting once: `++x` loses one `+` per pass. |
| Strings.Split | gitlab-merge-commit-downloader.py:43 | `str.split("/")` always gives at least one piece. The partners are `SplitPieces`, `SplitRejoins` and `SplitJoin`. |
| Strings.Join | gitlab-merge-commit-downloader.py:95 | `"/".join(parts)` has at least one separator between every two consecutive pieces, so it is at least `len(parts) - 1` long. |
| Strings.Lines | gitlab-merge-commit-downloader.py:107 | `for line in file`: the lines concatenate to the text. None is empty, and each except the last ends in its only line break. |
| Strings.UniversalNewlines | gitlab-merge-commit-downloader.py:105 | Text-mode reading leaves no carriage return, never lengthens the text, and changes nothing in text without a carriage return. |
| Strings.LinesCons | gitlab-merge-commit-downloader.py:107 | A line ending in its only line break is read as itself, followed by the lines of the rest. |
| HunkHeader.HeaderLengthExact | gitlab-merge-commit-downloader.py:111 | The matcher reports a match of length n at the start of `s` exactly when the first n characters are a string of the pattern `@@ -\d+,\d+ \+\d+,\d+ @@ `. |
| HunkHeader.MatchPrefixComplete | gitlab-merge-commit-downloader.py:111 | Every prefix the pattern denotes is found by the greedy token matcher. A `\d+` is always followed by a non-digit literal. |
| HunkHeader.MatchPrefixSound | gitlab-merge-commit-downloader.py:111 | What the token matcher takes is a string the pattern denotes. |
| HunkHeader.RemoveHeaders | gitlab-merge-commit-downloader.py:111 | `re.sub(pattern, "", line)`: a left-to-right scan drops each match and resumes after it. The result is never longer than the line. The partners are `RemoveHeadersUnchangedIff` and `HeaderLengthExact`. |
| HunkHeader.RemoveHeadersUnchangedIff | gitlab-merge-commit-downloader.py:111 | `re.sub` leaves a line unchanged exactly when no position in it starts a header. |
| HunkHeader.RemoveHeadersShrinks | gitlab-merge-commit-downloader.py:111 | A line with a header gets strictly shorter. |
| HunkHeader.RemoveHeadersKeepsNewlines | gitlab-merge-commit-downloader.py:111 | Removing headers keeps every line break. |
| HunkHeader.RemoveLeadingHeader | gitlab-merge-commit-downloader.py:111 | A header at the start is dropped whole, and the scan resumes after it. |
| HunkHeader.HeaderAfterUnmarked | gitlab-merge-commit-downloader.py:111 | The search is not anchored: a header after text without `@` is removed too, and the text before it is kept. |
| HunkHeader.KeepsUnmarked | gitlab-merge-commit-downloader.py:111 | Text without `@` is kept as it is, and removal goes on after it. |
| HunkHeader.HeaderIsHunkHeader | gitlab-merge-commit-downloader.py:111 | `@@ -a,b +c,d @@ ` with non-empty digit strings is a string of the pattern. |
| HunkHeader.HeaderMatches | gitlab-merge-commit-downloader.py:111 | Such a header is matched in full at the start of any text. |
| HunkHeader.HeaderShape | gitlab-merge-commit-downloader.py:111 | A match starts with `@@ -` and a digit. |
| HunkHeader.PlainKept | gitlab-merge-commit-downloader.py:111 | A line without a comma is kept as it is. |
| HunkHeader.HeaderHasNoNewline | gitlab-merge-commit-downloader.py:111 | A match never spans a line break. |
| HunkHeader.ExampleShortHeaderKept | gitlab-merge-commit-downloader.py:111 | `@@ -1 +1 @@`, without the counts, is not matched and stays. |
| HunkHeader.RemovalFormsHeader | gitlab-merge-commit-downloader.py:111 | Removal is not idempotent. For `@@ -` + header + counts, one pass leaves a new header, and a second pass removes it. |
| HunkHeader.DigitRunDigits | gitlab-merge-commit-downloader.py:111 | The `\d+` run is made of digits, and it stops only at a non-digit or at the end. |
| Urls.Origin | gitlab-merge-commit-downloader.py:38-39 | `f"{scheme}://{netloc}"` is the URL's first three `/`-pieces joined again. |
| Urls.OriginThenPath | gitlab-merge-commit-downloader.py:38-39 | `scheme://netloc` is exactly what the URL starts with, and the rest is its path. |
| Urls.SplitOrigin | gitlab-merge-commit-downloader.py:39-44 | The origin splits into the URL's first three `/`-pieces, so `urlparse` and `split("/")` agree. |
| Urls.WellShapedOfPieces | gitlab-merge-commit-downloader.py:43 | Pieces that start with a scheme, an empty piece and a host join into a URL that splits back into them. |
| Percent.Quote | gitlab-merge-commit-downloader.py:82 | `quote(s, safe='')` is never shorter than `s`. Its partner is `Unquote` (`QuoteRoundTrip`). |
| Percent.QuoteRoundTrip | gitlab-merge-commit-downloader.py:82 | Unquoting `quote(s, safe='')` gives the UTF-8 encoding of `s`. |
| Percent.Utf8Decodes | gitlab-merge-commit-downloader.py:82 | The UTF-8 bytes of a character decode back to its code point. |
| Percent.QuotedCharacters | gitlab-merge-commit-downloader.py:82 | The quoted string holds only always-safe characters and escapes. In particular it holds no `/`. |
| Percent.QuoteHasNoSlash | gitlab-merge-commit-downloader.py:82 | With `safe=''` the encoded path is a single URL piece. |
| Percent.QuoteIdentity | gitlab-merge-commit-downloader.py:82 | `quote` leaves a string unchanged exactly when every character is always-safe. |
| Percent.UnquoteEscapes | gitlab-merge-commit-downloader.py:82 | A run of `%XX` escapes unquotes to its bytes. |
| GitLab.ResolveMergeRequest | gitlab-merge-commit-downloader.py:38-45 | `UnsupportedUrl` exactly off the admitted URL shape. `IndexError` exactly when `split("/")` has fewer than 8 pieces. Otherwise the project id and the IID are both free of `/`; `ResolveMergeRequestOfPieces` states their values. |
| GitLab.ResolveMergeRequestOfPieces | gitlab-merge-commit-downloader.py:38-45 | For every URL of the admitted shape with at least 8 pieces `p`, the result is project id `p[3]%2Fp[4]` and IID `p[7]`. |
| GitLab.MergeRequestEndpointPieces | gitlab-merge-commit-downloader.py:39-48 | The changes endpoint is the URL's origin, then `api/v4/projects/<id>/merge_requests/<iid>/changes`, piece by piece. |
| GitLab.MergeRequestChangesUrl | gitlab-merge-commit-downloader.py:39-48 | `api_url` of `Download_Code_From_MR`. It fails exactly when the URL does not resolve, with the same error. Otherwise it starts with `gitlab_api`. |
| GitLab.MergeRequestReadsOnly | gitlab-merge-commit-downloader.py:43-45 | The endpoint depends only on pieces 0 to 4 and piece 7 of the URL. |
| GitLab.ProjectIdDecodes | gitlab-merge-commit-downloader.py:44 | GitLab decodes the id `namespace%2Fproject` to the path `namespace/project`. |
| GitLab.ExampleMergeRequest | gitlab-merge-commit-downloader.py:42-45 | On any host, `https://<host>/projectname/subproject/-/merge_requests/177` resolves to `projectname%2Fsubproject` and `177`. |
| GitLab.ResolveCommit | gitlab-merge-commit-downloader.py:63-70 | The same error cases as for merge requests. Otherwise the project id has no `/`, and the hash has no `/` and no `?`; `ResolveCommitOfPieces` states their values. |
| GitLab.ResolveCommitOfPieces | gitlab-merge-commit-downloader.py:63-70 | For every URL of the admitted shape with at least 8 pieces `p`, the result is project id `p[3]%2Fp[4]` and hash `CommitHash(p[7])`, the part of `p[7]` before its first `?`. |
| GitLab.CommitHash | gitlab-merge-commit-downloader.py:70 | `split("?")[0]`: the longest prefix of piece 7 without `?`. It holds no `?`, and it ends at the first `?` or at the end of the piece. |
| GitLab.CommitHashBeforeQuery | gitlab-merge-commit-downloader.py:70 | A piece `hash?query` names the commit `hash`. |
| GitLab.ExampleCommitHash | gitlab-merge-commit-downloader.py:70 | `0a1b2c?view=parallel` names the commit `0a1b2c`. |
| GitLab.CommitEndpointPieces | gitlab-merge-commit-downloader.py:64-72 | The diff endpoint is the origin, then `api/v4/projects/<id>/repository/commits/<hash>/diff`, piece by piece. |
| GitLab.CommitDiffUrl | gitlab-merge-commit-downloader.py:64-72 | `api_url` of `Download_Code_From_Commit_Url`. It fails exactly when the URL does not resolve, with the same error. Otherwise it starts with `gitlab_api`. |
| GitLab.RawFileUrlAsWrittenPieces | gitlab-merge-commit-downloader.py:83 | As written, the raw-file URL has an empty piece after `v4` (`api/v4//projects`). |
| GitLab.RawFileUrlAsWritten | gitlab-merge-commit-downloader.py:82-83 | `raw_file_url` as written. It fails exactly when the commit URL does not resolve. Otherwise it starts with `gitlab_api` + `/projects/`. Since `gitlab_api` ends in `/`, that makes a double slash. |
| GitLab.RawFileUrl | gitlab-merge-commit-downloader.py:82-83 | The corrected raw-file URL. It fails in the same cases. Otherwise it starts with `gitlab_api` + `projects/`, as the changes and diff endpoints do. |
| GitLab.RawFileUrlPieces | gitlab-merge-commit-downloader.py:82-83 | The corrected raw-file URL is `api/v4/projects/<id>/repository/files/<quoted path>/raw?ref=<hash>`, with the quoted path as one piece. |
| GitLab.RawFileUrlQuery | gitlab-merge-commit-downloader.py:82-83 | The quoted path decodes to the file path. The query is `ref=<hash>`. |
| GitLab.FileName | gitlab-merge-commit-downloader.py:94 | `filepath.split("/")[-1]` holds no `/`. |
| GitLab.Folder | gitlab-merge-commit-downloader.py:95 | `"/".join(filepath.split("/")[:-1])` is never longer than the path. Its partner is `FolderAndName`. |
| GitLab.FolderAndName | gitlab-merge-commit-downloader.py:94-95 | `folder + "/" + filename == filepath` whenever the path has a `/`. Otherwise the folder is empty and the name is the path. The name never holds `/`. github-mr-commits-downloader.py:68-69 is the same code. |
| GitLab.FolderEmptyIff | gitlab-merge-commit-downloader.py:95-96 | The folder is empty exactly when the path has no `/`, or has one leading `/` only. |
| GitLab.SaveDiffToFile | gitlab-merge-commit-downloader.py:93-101 | A folder is created exactly when it is non-empty, and the file holds the rewrite of the diff. github-mr-commits-downloader.py:67-75 is the same code. |
| GitLab.SaveChanges | gitlab-merge-commit-downloader.py:55-58 | The loop over the changes leaves `Written(changes)` and creates `FoldersOf(changes)`. |
| GitLab.WrittenPaths | gitlab-merge-commit-downloader.py:55-58 | Exactly the changes' paths are written. |
| GitLab.LastWriteWins | gitlab-merge-commit-downloader.py:98-99 | Mode `"w"` overwrites, so a path holds the rewrite of the last change to it. |
| GitLab.FoldersCreated | gitlab-merge-commit-downloader.py:94-97 | A folder is created exactly when some change's path lies in it. |
| GitLab.FolderHoldsFile | gitlab-merge-commit-downloader.py:94-99 | Every folder created directly holds a file that was written. |
| GitLab.DownloadCodeFromMr | gitlab-merge-commit-downloader.py:36-58 | It fails exactly when the URL does not resolve, and then writes nothing. Otherwise it requests the changes endpoint and saves every change. |
| GitLab.CodeDiffs | gitlab-merge-commit-downloader.py:81-88 | Each entry is saved under its `new_path`, with its `diff` or, in full-file mode, the fetched text. |
| GitLab.RawRequests | gitlab-merge-commit-downloader.py:81-85 | Full-file mode makes one raw-file request per entry, in order. Each is at `raw_file_url` as the script builds it (`RawFileUrlAsWritten`). |
| GitLab.SaveCommitEntry | gitlab-merge-commit-downloader.py:79-90 | One entry of the loop. In full-file mode it requests the entry's raw file at the as-written URL. It saves the fetched text or the entry's `diff` under `new_path`, rewritten. |
| GitLab.DownloadCodeFromCommitUrl | gitlab-merge-commit-downloader.py:61-90 | It fails exactly when the URL does not resolve. Otherwise it requests the diff endpoint, makes the as-written raw-file requests in full-file mode only, and saves every entry. |
| GitLab.ApiRoot | gitlab-merge-commit-downloader.py:38-39 | `gitlab_api`: it starts with the URL's origin and ends in `/`. |
| GitLab.VerifyUrl | gitlab-merge-commit-downloader.py:124-127 | `git_verify_url` of `verify_gitlab_token` lies under `gitlab_api`, like every endpoint. Its `/`-pieces are the URL's first three, then `api`, `v4`, `personal_access_tokens`, `self`. |
| Files.OverwriteKeys | gitlab-merge-commit-downloader.py:98-99 | After a run of writes, exactly the paths that existed before or were written exist. |
| Files.OverwriteLast | gitlab-merge-commit-downloader.py:98-99 | A path holds what the last write to it wrote. |
| Files.OverwriteUntouched | gitlab-merge-commit-downloader.py:98-99 | A path no write touches keeps its contents. |
| Files.OverwriteAppend | gitlab-merge-commit-downloader.py:98-99 | Two runs of writes in sequence are one run. |
| Jira.EpicName | jira-epic-mr-downloader.py:63 | The epic's key holds no `/`. |
| Jira.EpicNameIsLastPiece | jira-epic-mr-downloader.py:63 | The key is what the URL ends with after its last `/`. The URL is the rest, `/` and the key. |
| Jira.EpicOfBrowseUrl | jira-epic-mr-downloader.py:63 | For `<anything>/<key>` with a key free of `/`, the epic's key is that key. |
| Jira.Jql | jira-epic-mr-downloader.py:64 | The query is `"Epic Link" = ` followed by the key, and the key can be read back from it. |
| Jira.JqlInjective | jira-epic-mr-downloader.py:64 | Different keys give different queries. |
| Jira.LinkRun | jira-epic-mr-downloader.py:92 | `[^]]+` takes every character up to the first `]` or the end. |
| Jira.SearchLink | jira-epic-mr-downloader.py:93 | The search returns the leftmost position where the expression matches, and None when it matches nowhere. |
| Jira.FindMergeRequestLink | jira-epic-mr-downloader.py:93-95 | `re.search(pattern, body).group(1)`, or None where the search finds nothing: a found link is never empty and holds no `]`. |
| Jira.LinkFoundIff | jira-epic-mr-downloader.py:93-94 | A link is found exactly when the expression matches somewhere. |
| Jira.LinkIsLeftmost | jira-epic-mr-downloader.py:93-94 | The link is the one captured at the leftmost match. |
| Jira.LinkShape | jira-epic-mr-downloader.py:92-94 | The link is non-empty, holds no `]`, follows the marker, and reaches up to a `]` or the end. |
| Jira.LinkInComment | jira-epic-mr-downloader.py:91-94 | In `... [a merge request\|<url>] ...`, where the text before holds no `a merge request\|` (as in GitLab's `[User\|url] mentioned this issue in [a merge request\|url]`), the link found is the URL. |
| Jira.OutputFolderPlain | jira-epic-mr-downloader.py:19 | `jira-007-output` is a single relative piece. |
| Jira.PathJoin | jira-epic-mr-downloader.py:137 | POSIX `os.path.join(a, b)` always ends in `b`. |
| Jira.TargetPath | jira-epic-mr-downloader.py:137 | `os.path.join(OUTPUT_FOLDER, epic_name, filepath)` ends in `filepath`. |
| Jira.TargetOfRelative | jira-epic-mr-downloader.py:137 | A relative path is written at `jira-007-output/<epic>/<path>`. |
| Jira.TargetOfAbsolute | jira-epic-mr-downloader.py:137 | `os.path.join` drops everything before an absolute path. |
| Jira.TargetFolder | jira-epic-mr-downloader.py:137-138 | For a relative path, the file keeps its name. The folder is the epic's folder followed by the path's folder. |
| Jira.DiffFileFailsIff | jira-epic-mr-downloader.py:137-141 | `create_diff_file` raises (from `os.makedirs("")`) exactly for an absolute path directly under `/`. |
| Jira.DiffFileSave | jira-epic-mr-downloader.py:136-146 | One change's `create_diff_file`. When it does not raise, it writes at a path ending in the change's path, with a non-empty folder, contents no longer than the diff. |
| Jira.CreateDiffFile | jira-epic-mr-downloader.py:136-146 | It computes the target, fails when there is no folder, and otherwise writes the Jira rewrite of the diff. |
| Jira.SaveAllStops | jira-epic-mr-downloader.py:128-132 | The files saved are those of the changes before the first one that raises, in order. The loop failed exactly when such a change exists. |
| Jira.UntilFailureFailed | jira-epic-mr-downloader.py:129-132 | Once a change has raised, later changes are not looked at. |
| Jira.DownloadChanges | jira-epic-mr-downloader.py:128-132 | The loop's files and folders are those of `SaveAll`, written over the earlier ones. |
| Jira.CommentOutcome | jira-epic-mr-downloader.py:90-99 | One comment's outcome. Anything but "no mention" means the body mentions `merge_requests`. Every link is non-empty without `]`. Every request lies under that link's `gitlab_api`. A fetched endpoint is one GitLab answered. |
| Jira.HandleComment | jira-epic-mr-downloader.py:90-99 | One comment: no mention of `merge_requests` means nothing is done. Otherwise a missing link, an unresolvable link, a response without `changes` or a failing change each print one error. |
| Jira.FirstMissing | jira-epic-mr-downloader.py:89-90 | The loop reads comments up to the first one without a `body`. |
| Jira.GetMergeRequestsFromComments | jira-epic-mr-downloader.py:88-101 | The requests, files, folders and errors of the loop over the comments. A missing comment list, or a comment without a body, ends the loop with one error. |
| Jira.RunBounds | jira-epic-mr-downloader.py:89-99 | At most one request and one error per comment. |
| Jira.NoErrorsIff | jira-epic-mr-downloader.py:98-99 | No error is printed exactly when no comment raises. |
| Jira.RequestsComeFromLinks | jira-epic-mr-downloader.py:91-95 | Every request is the changes endpoint of a link found in a comment that mentions `merge_requests`. |
| Jira.UnmentionedIgnored | jira-epic-mr-downloader.py:92 | A comment without `merge_requests` changes nothing. |
| Jira.ExampleMergeRequest | jira-epic-mr-downloader.py:111-114 | On any host, `https://<host>/baseproject/projectName/-/merge_requests/177` resolves to `baseproject%2FprojectName` and `177`. |
| GitHub.ResolvePullRequest | github-mr-commits-downloader.py:47-48 | `UnsupportedUrl` exactly off the admitted shape. `IndexError` exactly when `split("/")[3:]` has fewer than 4 pieces. Otherwise org, repo and number, each free of `/`. |
| GitHub.PullRequestEndpointPieces | github-mr-commits-downloader.py:46-49 | The endpoint is the origin, then `api/v3/repos/<org>/<repo>/pulls/<number>`, from pieces 3, 4 and 6. |
| GitHub.PullRequestReadsOnly | github-mr-commits-downloader.py:47-49 | The endpoint does not depend on `s[2]` (the web URL's `pull`) or on any piece after `s[3]`. |
| GitHub.OriginOfPieces | github-mr-commits-downloader.py:36-39 | The API base depends only on the URL's first three pieces. |
| GitHub.ApiBase | github-mr-commits-downloader.py:36-39 | `get_github_api_baseurl` starts with the URL's origin. Its `/`-pieces are the URL's first three, then `api`, `v3`. |
| GitHub.VerifyUrl | github-mr-commits-downloader.py:94-98 | `git_verify_url` of `verify_github_token` lies under the API base. Its `/`-pieces are the URL's first three, then `api`, `v3`, `user`. |
| GitHub.PullRequestUrl | github-mr-commits-downloader.py:46-49 | `final_api_url`. It fails exactly when the URL does not resolve, with the same error. Otherwise it starts with the API base + `/repos/`. |
| GitHub.ExamplePullRequest | github-mr-commits-downloader.py:46-54 | On any host, `https://<host>/org/repo/pull/42` is requested at `https://<host>/api/v3/repos/org/repo/pulls/42`. |

## Left out

- HTTP requests, JSON parsing and the tokens. Each response is an input: the `changes` list, the raw-file texts, or the map the Jira model takes. A response without `changes` is a missing key of that map.
- File system calls. Writes are a map from path to contents, and created folders are a set. Failures of `open` are not modelled: a path that is a directory, missing permissions, a full disk. Folders that existed before a run are not modelled apart from `folders0`.
- `argparse`, the environment variables, `os.chdir("results")`, `main`, and reading URL lists from files.
- The progress-animation thread and its global flag. It carries no contract.
- The Jira client library: `JIRA(...)`, `search_issues` and the loop over the issues it returns. The model starts from one issue's comment bodies.
- The GitHub stubs `Download_Code_From_MR` and `Download_Code_From_Commit_Url` (github-mr-commits-downloader.py:57-63), which do nothing. The pull request diff is only printed, never saved.
- General `urlparse` and `os.path.join`. URLs are modelled only on the shape `scheme://host/...` (`Urls.WellShaped`), with a lower-case scheme and a host without `?`, `#` or brackets. `PathJoin` is POSIX `os.path.join` for two arguments.
- Urls.WellShaped admits some non-ASCII hosts that `urlparse` rejects. `urlsplit` raises `ValueError` when the host's NFKC form holds `/`, `?`, `#`, `@` or `:`, for example `h℀` (`℀` becomes `a/c`). The GitLab and GitHub scripts then stop with that exception, and the Jira script prints one error. The model resolves such a URL as if `urlparse` took the host whole. Unicode normalisation is out of scope.
- Urls.WellShaped also refuses any URL that holds a tab, a carriage return or a line feed anywhere. `urlparse` deletes those characters, and `split("/")` still gives the pieces, so the script goes on and makes the request. The model resolves such a URL to `UnsupportedUrl` instead.
- Jira.CommentOutcome: the `[^]]+` capture can run across a line break of the comment. For such a link the model counts one error and makes no request. The script goes on and makes a request: its origin comes from `urlparse`, which deletes the line break, and its other pieces come from `split("/")`.
- Token validation. It is an HTTP call and `exit`. Only the check URLs of `verify_gitlab_token` and `verify_github_token` are modelled (`GitLab.VerifyUrl`, `GitHub.VerifyUrl`). The Jira script's `prechecks` (jira-epic-mr-downloader.py:167-185) are not modelled, including its GitLab and Jira check URLs.
- HunkHeader.IsDigit: `\d` is modelled as ASCII `0`-`9`. Python's `re` on `str` also matches other Unicode decimal digits.
- HunkHeader.HeaderLength: its own contract bounds a match only below by 4. The exact set of matches is stated by `HeaderLengthExact`.
- Console output (`print`, colours, the `ERROR:` messages). Errors are counted, not their texts.
- Text encodings. Files are read and written as strings of code points. Under a locale that is not UTF-8, a decoding failure would raise inside `beautify_file`.

## Findings

| source | as written | input that shows it | evidently intended | confidence | as-written member | corrected member |
|---|---|---|---|---|---|---|
| gitlab-merge-commit-downloader.py:83 | `f'{gitlab_api}/projects/...'` where `gitlab_api` already ends in `/`, so the URL holds `api/v4//projects` | any commit URL in full-file mode, for example `https://h/a/b/-/commit/x` with file `f` | `api/v4/projects/...`, as in the changes and diff endpoints | not executed | GitLab.RawFileUrlAsWrittenPieces | GitLab.RawFileUrlPieces |

The commit download loop `GitLab.DownloadCodeFromCommitUrl` requests the
raw files at the URL as written (`GitLab.RawFileUrlAsWritten`, with the
double slash). `GitLab.RawFileUrl` is the corrected URL, stated beside it.
