/**
 * jira-epic-mr-downloader.py: from the epic's URL to the JQL query for its
 * issues, from an issue's comments to the merge requests they link, and
 * from each changed file of those merge requests to the file written under
 * `jira-007-output/<epic>/`.
 */
module Jira {
  import opened Wrappers
  import opened Strings
  import opened Urls
  import opened Files
  import opened Beautify
  import opened GitLab

  /** `OUTPUT_FOLDER`. */
  const OutputFolder: string := "jira-007-output"

  /** `jira_epic_link.split('/')[-1]`: the epic's key, the last piece of its URL. */
  function EpicName(epicLink: string): (name: string)
    ensures '/' !in name
  {
    SplitPieces(epicLink, '/');
    LastPiece(epicLink, '/')
  }

  /** The epic's key is what the URL ends with, after its last `/`. */
  lemma EpicNameIsLastPiece(epicLink: string)
    ensures EndsWith(epicLink, EpicName(epicLink))
    ensures '/' in epicLink ==> epicLink == AllButLastPiece(epicLink, '/') + "/" + EpicName(epicLink)
    ensures '/' !in epicLink ==> EpicName(epicLink) == epicLink
  {
    var name := EpicName(epicLink);
    if '/' in epicLink {
      PiecesRejoin(epicLink, '/');
      var front := AllButLastPiece(epicLink, '/') + "/";
      assert epicLink == front + name;
      assert epicLink[|epicLink| - |name|..] == name;
    } else {
      OnePiece(epicLink, '/');
      assert epicLink[|epicLink| - |name|..] == epicLink[0..];
    }
  }

  /** A browse URL names the key after its last `/`. */
  lemma EpicOfBrowseUrl(front: string, key: string)
    requires '/' !in key
    ensures EpicName(front + "/" + key) == key
  {
    LastPieceAfter(front, '/', key);
    OnePiece(key, '/');
  }

  const JqlPrefix: string := "\"Epic Link\" = "

  /** `f'"Epic Link" = {epic_name}'`: the fixed prefix and then the epic's key, which can be read back from it. */
  function Jql(epicName: string): (q: string)
    ensures StartsWith(q, JqlPrefix)
    ensures q[|JqlPrefix|..] == epicName
  {
    StartsWithConcat(JqlPrefix, epicName);
    JqlPrefix + epicName
  }

  /** Two epics get the same query only when they have the same key. */
  lemma JqlInjective(a: string, b: string)
    requires Jql(a) == Jql(b)
    ensures a == b
  {
  }

  /** The literal `a merge request|` that the regular expression `a merge request\|([^]]+)` starts with. */
  const Marker: string := "a merge request|"

  /** How many characters at the start of `s` are not `]`: what the greedy `[^]]+` takes. */
  function LinkRun(s: string): (n: nat)
    ensures n <= |s|
    ensures forall k :: 0 <= k < n ==> s[k] != ']'
    ensures n < |s| ==> s[n] == ']'
  {
    if s != [] && s[0] != ']' then 1 + LinkRun(s[1..]) else 0
  }

  /** The regular expression matches at `i`: the marker, then at least one character other than `]`. */
  predicate LinkAt(body: string, i: int)
  {
    0 <= i && i + |Marker| < |body| && body[i..i + |Marker|] == Marker && body[i + |Marker|] != ']'
  }

  /** What group 1 captures for a match at `i`. */
  function LinkOf(body: string, i: int): string
    requires LinkAt(body, i)
  {
    var t := body[i + |Marker|..];
    t[..LinkRun(t)]
  }

  /** `re.search` from position `from` on: the leftmost position where the expression matches. */
  function SearchLink(body: string, from: nat): (r: Option<nat>)
    requires from <= |body|
    ensures r.Some? ==> from <= r.value && LinkAt(body, r.value)
    ensures r.Some? ==> forall j :: from <= j < r.value ==> !LinkAt(body, j)
    ensures r.None? ==> forall j :: from <= j ==> !LinkAt(body, j)
    decreases |body| - from
  {
    if from + |Marker| >= |body| then None
    else if LinkAt(body, from) then Some(from)
    else SearchLink(body, from + 1)
  }

  /** `re.search(pattern, body).group(1)`, or None where the search finds nothing; a link is never empty and holds no `]`. */
  function FindMergeRequestLink(body: string): (r: Option<string>)
    ensures r.Some? ==> r.value != [] && ']' !in r.value
  {
    match SearchLink(body, 0)
    case None => None
    case Some(i) => LinkShape(body, i); Some(LinkOf(body, i))
  }

  /** A link is found exactly when the expression matches somewhere. */
  lemma LinkFoundIff(body: string)
    ensures FindMergeRequestLink(body).Some? <==> exists i :: LinkAt(body, i)
  {
    if SearchLink(body, 0).Some? {
      assert LinkAt(body, SearchLink(body, 0).value);
    }
  }

  /** The link found is the one captured at the leftmost match. */
  lemma LinkIsLeftmost(body: string, i: int)
    requires LinkAt(body, i)
    requires forall j :: 0 <= j < i ==> !LinkAt(body, j)
    ensures FindMergeRequestLink(body) == Some(LinkOf(body, i))
  {
    var r := SearchLink(body, 0);
    assert r.Some?;
    assert r.value == i;
  }

  /**
   * A captured link is not empty, holds no `]`, follows the marker, and
   * reaches up to the next `]` or the end of the comment.
   */
  lemma LinkShape(body: string, i: int)
    requires LinkAt(body, i)
    ensures var link := LinkOf(body, i); var start := i + |Marker|;
      link != [] && ']' !in link &&
      StartsWith(body[start..], link) &&
      (start + |link| == |body| || body[start + |link|] == ']')
  {
    var start := i + |Marker|;
    var t := body[start..];
    var link := LinkOf(body, i);
    assert t[0] == body[start];
    assert forall k :: 0 <= k < |link| ==> link[k] == t[k];
    if start + |link| < |body| {
      assert body[start + |link|] == t[|link|];
    }
  }

  /** Text without the marker holds it at no position. */
  lemma MarkerNotAt(pre: string, j: int)
    requires !Contains(pre, Marker) && 0 <= j && j + |Marker| <= |pre|
    ensures pre[j..j + |Marker|] != Marker
  {
    if pre[j..j + |Marker|] == Marker {
      assert pre[j..][..|Marker|] == pre[j..j + |Marker|];
      ContainsAt(pre, Marker, j);
    }
  }

  /** A window that lies inside `pre` and is not the marker starts no match. */
  lemma NoLinkInside(pre: string, rest: string, j: int)
    requires 0 <= j && j + |Marker| <= |pre| && pre[j..j + |Marker|] != Marker
    ensures !LinkAt(pre + "[" + rest, j)
  {
    var body := pre + "[" + rest;
    if j + |Marker| < |body| {
      assert body[j..j + |Marker|] == pre[j..j + |Marker|];
    }
  }

  /** A window that reaches the `[` after `pre` starts no match: the marker holds no `[`. */
  lemma NoLinkAcross(pre: string, rest: string, j: int)
    requires 0 <= j <= |pre| < j + |Marker|
    ensures !LinkAt(pre + "[" + rest, j)
  {
    var body := pre + "[" + rest;
    assert forall k :: 0 <= k < |Marker| ==> Marker[k] != '[';
    if j + |Marker| < |body| {
      var m := body[j..j + |Marker|];
      assert m[|pre| - j] == body[|pre|] == '[';
    }
  }

  /** No match starts inside text without the marker or at the `[` that follows it. */
  lemma NoLinkBefore(pre: string, rest: string, j: int)
    requires !Contains(pre, Marker) && 0 <= j <= |pre|
    ensures !LinkAt(pre + "[" + rest, j)
  {
    if j + |Marker| <= |pre| {
      MarkerNotAt(pre, j);
      NoLinkInside(pre, rest, j);
    } else {
      NoLinkAcross(pre, rest, j);
    }
  }

  /**
   * The comment GitLab leaves on a linked issue,
   * `... [a merge request|<url>] ...`: the link found is the URL.
   */
  lemma LinkInComment(pre: string, url: string, post: string)
    requires !Contains(pre, Marker) && url != [] && ']' !in url
    ensures FindMergeRequestLink(pre + "[" + (Marker + url + "]" + post)) == Some(url)
  {
    var rest := Marker + url + "]" + post;
    forall j | 0 <= j < |pre| + 1
      ensures !LinkAt(pre + "[" + rest, j)
    {
      NoLinkBefore(pre, rest, j);
    }
    LinkAfterPrefix(pre, url, post);
  }

  /** The marker right after `pre + "["`, with no match before it, gives the URL. */
  lemma LinkAfterPrefix(pre: string, url: string, post: string)
    requires url != [] && ']' !in url
    requires forall j :: 0 <= j < |pre| + 1 ==> !LinkAt(pre + "[" + (Marker + url + "]" + post), j)
    ensures FindMergeRequestLink(pre + "[" + (Marker + url + "]" + post)) == Some(url)
  {
    var rest := Marker + url + "]" + post;
    var body := pre + "[" + rest;
    var i := |pre| + 1;
    assert body[i..] == rest;
    assert rest[..|Marker|] == Marker;
    assert body[i..i + |Marker|] == Marker;
    var t := rest[|Marker|..];
    assert t == url + "]" + post;
    assert body[i + |Marker|..] == t;
    assert t[0] == url[0];
    assert LinkAt(body, i);
    LinkIsLeftmost(body, i);
    assert t[|url|] == ']';
    assert forall k :: 0 <= k < |url| ==> t[k] == url[k];
    assert LinkRun(t) == |url|;
    assert t[..|url|] == url;
  }

  /** `os.path.join(a, b)` (POSIX): an absolute `b` replaces `a`; otherwise one `/` separates them. */
  function PathJoin(a: string, b: string): (r: string)
    ensures EndsWith(r, b)
  {
    if StartsWith(b, "/") then b
    else if a == "" || EndsWith(a, "/") then EndsWithConcat(a, b); a + b
    else EndsWithConcat(a + "/", b); a + "/" + b
  }

  /** `os.path.join(OUTPUT_FOLDER, epic_name, filepath)`, which ends in the file's path. */
  function TargetPath(epicName: string, filepath: string): (target: string)
    ensures EndsWith(target, filepath)
  {
    PathJoin(PathJoin(OutputFolder, epicName), filepath)
  }

  /** The folder the epic's files go in: `jira-007-output/<epic>`, or `jira-007-output` for an empty key. */
  function EpicFolder(epicName: string): string
  {
    if epicName == "" then OutputFolder else OutputFolder + "/" + epicName
  }

  lemma OutputFolderPlain()
    ensures OutputFolder != "" && '/' !in OutputFolder && !EndsWith(OutputFolder, "/")
  {
    assert OutputFolder[|OutputFolder| - 1..] == "t";
  }

  /** A relative path lands in the epic's folder. */
  lemma TargetOfRelative(epicName: string, filepath: string)
    requires '/' !in epicName && !StartsWith(filepath, "/")
    ensures TargetPath(epicName, filepath) == EpicFolder(epicName) + "/" + filepath
  {
    OutputFolderPlain();
    var j := PathJoin(OutputFolder, epicName);
    if epicName == "" {
      assert !StartsWith(epicName, "/");
      assert j == OutputFolder + "/";
      assert EndsWith(j, "/");
    } else {
      assert !StartsWith(epicName, "/") by {
        assert epicName[..1][0] == epicName[0];
      }
      assert j == OutputFolder + "/" + epicName;
      assert j[|j| - 1..] == [epicName[|epicName| - 1]];
      assert !EndsWith(j, "/");
    }
  }

  /** `os.path.join` drops everything before an absolute path. */
  lemma TargetOfAbsolute(epicName: string, filepath: string)
    requires StartsWith(filepath, "/")
    ensures TargetPath(epicName, filepath) == filepath
  {
  }

  /**
   * For a relative path, the file keeps its name and the folder created is
   * the epic's folder followed by the path's own folder.
   */
  lemma TargetFolder(epicName: string, filepath: string)
    requires '/' !in epicName && !StartsWith(filepath, "/")
    ensures FileName(TargetPath(epicName, filepath)) == FileName(filepath)
    ensures Folder(TargetPath(epicName, filepath)) ==
      if '/' in filepath then EpicFolder(epicName) + "/" + Folder(filepath) else EpicFolder(epicName)
  {
    TargetOfRelative(epicName, filepath);
    LastPieceAfter(EpicFolder(epicName), '/', filepath);
    AllButLastPieceAfter(EpicFolder(epicName), '/', filepath);
  }

  /** A file `create_diff_file` writes: its path and what `beautify_file` leaves in it. */
  datatype Save = Save(path: string, contents: string)

  /**
   * What `create_diff_file` does for one change: None where
   * `os.makedirs("")` raises, because the target has no folder.
   */
  function DiffFileSave(epicName: string, c: Change): (r: Option<Save>)
    ensures r.Some? ==> EndsWith(r.value.path, c.newPath) && Folder(r.value.path) != ""
    ensures r.Some? ==> |r.value.contents| <= |c.diff|
  {
    var target := TargetPath(epicName, c.newPath);
    if Folder(target) == "" then None else Some(Save(target, BeautifyText(DropRemoved, c.diff)))
  }

  /** Only an absolute path directly under `/` leaves the target without a folder. */
  lemma DiffFileFailsIff(epicName: string, c: Change)
    requires '/' !in epicName
    ensures DiffFileSave(epicName, c).None? <==> StartsWith(c.newPath, "/") && Folder(c.newPath) == ""
  {
    if !StartsWith(c.newPath, "/") {
      TargetFolder(epicName, c.newPath);
      OutputFolderPlain();
      assert |EpicFolder(epicName)| > 0;
    }
  }

  /** `create_diff_file`: the target, its folder, and the rewrite of the diff written there. */
  method CreateDiffFile(epicName: string, filepath: string, diff: string) returns (r: Option<Save>)
    ensures r == DiffFileSave(epicName, Change(filepath, diff))
  {
    var target := TargetPath(epicName, filepath);
    var folderPath := Folder(target);
    if folderPath == "" {
      return None;
    }
    var contents := BeautifyFileDroppingRemoved(diff);
    r := Some(Save(target, contents));
  }

  /** The files saved for a merge request's changes, and whether a change stopped the loop. */
  datatype Saving = Saving(saves: seq<Save>, failed: bool)

  /** What `create_diff_file` would do for each change, taken alone. */
  function Attempts(epicName: string, changes: seq<Change>): (a: seq<Option<Save>>)
    ensures |a| == |changes|
    ensures forall i :: 0 <= i < |changes| ==> a[i] == DiffFileSave(epicName, changes[i])
  {
    seq(|changes|, i requires 0 <= i < |changes| => DiffFileSave(epicName, changes[i]))
  }

  /** A loop that makes its attempts in order and stops at the first one that raises. */
  function UntilFailure(attempts: seq<Option<Save>>): Saving
    decreases |attempts|
  {
    if attempts == [] then Saving([], false)
    else
      var prev := UntilFailure(attempts[..|attempts| - 1]);
      if prev.failed then prev
      else match attempts[|attempts| - 1]
        case None => Saving(prev.saves, true)
        case Some(s) => Saving(prev.saves + [s], false)
  }

  /** The fold taken one attempt further. */
  lemma UntilFailureStep(attempts: seq<Option<Save>>, i: nat)
    requires i < |attempts|
    ensures var prev := UntilFailure(attempts[..i]);
      UntilFailure(attempts[..i + 1]) ==
        if prev.failed then prev
        else if attempts[i].None? then Saving(prev.saves, true)
        else Saving(prev.saves + [attempts[i].value], false)
  {
    assert attempts[..i + 1][..i] == attempts[..i];
  }

  /** The loop of `Download_Code_From_MR`: the changes are saved in order until one raises. */
  function SaveAll(epicName: string, changes: seq<Change>): Saving
  {
    UntilFailure(Attempts(epicName, changes))
  }

  lemma {:induction false} UntilFailureStops(attempts: seq<Option<Save>>)
    ensures var r := UntilFailure(attempts);
      |r.saves| <= |attempts| &&
      (forall i :: 0 <= i < |r.saves| ==> attempts[i] == Some(r.saves[i])) &&
      (r.failed <==> |r.saves| < |attempts|) &&
      (r.failed ==> attempts[|r.saves|].None?)
    decreases |attempts|
  {
    if attempts != [] {
      var n := |attempts| - 1;
      var init := attempts[..n];
      UntilFailureStops(init);
      var prev := UntilFailure(init);
      var r := UntilFailure(attempts);
      assert forall i :: 0 <= i < n ==> init[i] == attempts[i];
      if !prev.failed && attempts[n].Some? {
        assert r.saves == prev.saves + [attempts[n].value];
        assert forall i :: 0 <= i < n ==> r.saves[i] == prev.saves[i];
      }
    }
  }

  /**
   * The saves are those of the changes before the first one that raises,
   * in order; the loop failed exactly when such a change exists.
   */
  lemma SaveAllStops(epicName: string, changes: seq<Change>)
    ensures var r := SaveAll(epicName, changes);
      |r.saves| <= |changes| &&
      (forall i :: 0 <= i < |r.saves| ==> DiffFileSave(epicName, changes[i]) == Some(r.saves[i])) &&
      (r.failed <==> |r.saves| < |changes|) &&
      (r.failed ==> DiffFileSave(epicName, changes[|r.saves|]).None?)
  {
    UntilFailureStops(Attempts(epicName, changes));
  }

  /** Once an attempt has raised, the later ones are not looked at. */
  lemma {:induction false} UntilFailureFailed(attempts: seq<Option<Save>>, k: nat)
    requires k <= |attempts| && UntilFailure(attempts[..k]).failed
    ensures UntilFailure(attempts) == UntilFailure(attempts[..k])
    decreases |attempts| - k
  {
    if k < |attempts| {
      assert attempts[..k + 1][..k] == attempts[..k];
      UntilFailureFailed(attempts, k + 1);
    } else {
      assert attempts[..k] == attempts;
    }
  }

  /** The writes of a list of saves, as Overwrite takes them. */
  function Pairs(saves: seq<Save>): (w: seq<(string, string)>)
    ensures |w| == |saves|
    ensures forall i :: 0 <= i < |saves| ==> w[i] == (saves[i].path, saves[i].contents)
  {
    seq(|saves|, i requires 0 <= i < |saves| => (saves[i].path, saves[i].contents))
  }

  /** The folders of a list of saves. */
  function FolderSet(saves: seq<Save>): set<string>
  {
    set i | 0 <= i < |saves| :: Folder(saves[i].path)
  }

  lemma PairsAppend(a: seq<Save>, b: seq<Save>)
    ensures Pairs(a + b) == Pairs(a) + Pairs(b)
  {
  }

  lemma FolderSetAppend(a: seq<Save>, b: seq<Save>)
    ensures FolderSet(a + b) == FolderSet(a) + FolderSet(b)
  {
    var ab := a + b;
    forall f | f in FolderSet(ab)
      ensures f in FolderSet(a) + FolderSet(b)
    {
      var i :| 0 <= i < |ab| && Folder(ab[i].path) == f;
      if i >= |a| {
        assert ab[i] == b[i - |a|];
      }
    }
    forall f | f in FolderSet(a) + FolderSet(b)
      ensures f in FolderSet(ab)
    {
      if f in FolderSet(a) {
        var i :| 0 <= i < |a| && Folder(a[i].path) == f;
        assert ab[i] == a[i];
      } else {
        var i :| 0 <= i < |b| && Folder(b[i].path) == f;
        assert ab[|a| + i] == b[i];
      }
    }
  }

  /** Saving one more file: its contents written, its folder created. */
  lemma SaveSnoc(files: map<string, string>, folders: set<string>, saves: seq<Save>, s: Save)
    ensures Overwrite(files, Pairs(saves + [s])) == Overwrite(files, Pairs(saves))[s.path := s.contents]
    ensures folders + FolderSet(saves + [s]) == folders + FolderSet(saves) + {Folder(s.path)}
  {
    PairsAppend(saves, [s]);
    assert Pairs([s]) == [(s.path, s.contents)];
    OverwriteSnoc(files, Pairs(saves), (s.path, s.contents));
    FolderSetAppend(saves, [s]);
    assert FolderSet([s]) == {Folder(s.path)} by {
      assert Folder([s][0].path) in FolderSet([s]);
    }
  }

  /**
   * The loop of `Download_Code_From_MR` over the changes of the response:
   * each change is saved in turn, and the first one that raises ends it.
   */
  method DownloadChanges(epicName: string, changes: seq<Change>, files0: map<string, string>, folders0: set<string>)
    returns (s: Saving, files: map<string, string>, folders: set<string>)
    ensures s == SaveAll(epicName, changes)
    ensures files == Overwrite(files0, Pairs(s.saves))
    ensures folders == folders0 + FolderSet(s.saves)
  {
    var saves: seq<Save> := [];
    files, folders := files0, folders0;
    assert Pairs([]) == [];
    ghost var attempts := Attempts(epicName, changes);
    var i := 0;
    while i < |changes|
      invariant 0 <= i <= |changes|
      invariant UntilFailure(attempts[..i]) == Saving(saves, false)
      invariant files == Overwrite(files0, Pairs(saves))
      invariant folders == folders0 + FolderSet(saves)
    {
      var r := CreateDiffFile(epicName, changes[i].newPath, changes[i].diff);
      UntilFailureStep(attempts, i);
      assert Change(changes[i].newPath, changes[i].diff) == changes[i];
      assert r == attempts[i];
      if r.None? {
        UntilFailureFailed(attempts, i + 1);
        return Saving(saves, true), files, folders;
      }
      SaveSnoc(files0, folders0, saves, r.value);
      files := files[r.value.path := r.value.contents];
      folders := folders + {Folder(r.value.path)};
      saves := saves + [r.value];
      i := i + 1;
    }
    assert attempts[..|changes|] == attempts;
    s := Saving(saves, false);
  }

  /** What the loop over an issue's comments does with one comment. */
  datatype Outcome =
    | NoMention                                  // no `merge_requests` in the body: not looked at
    | NoLink                                     // the search finds nothing and `.group` raises
    | Unresolved(link: string, error: Error)     // the link cannot be resolved
    | NoResponse(link: string, endpoint: string) // the request gives no `changes`
    | Fetched(link: string, endpoint: string, saving: Saving)

  /** `responses` maps each changes endpoint GitLab answers to the `changes` of its answer. */
  function CommentOutcome(epicName: string, body: string, responses: map<string, seq<Change>>): (r: Outcome)
    ensures !r.NoMention? ==> Contains(body, "merge_requests")
    ensures r.Unresolved? || r.NoResponse? || r.Fetched? ==> r.link != [] && ']' !in r.link
    ensures r.NoResponse? || r.Fetched? ==> WellShaped(r.link) && StartsWith(r.endpoint, ApiRoot(r.link))
    ensures r.Fetched? ==> r.endpoint in responses
  {
    if !Contains(body, "merge_requests") then NoMention
    else match FindMergeRequestLink(body)
      case None => NoLink
      case Some(link) =>
        match MergeRequestChangesUrl(link)
        case Failure(e) => Unresolved(link, e)
        case Success(endpoint) =>
          if endpoint in responses then Fetched(link, endpoint, SaveAll(epicName, responses[endpoint]))
          else NoResponse(link, endpoint)
  }

  /** The requests a comment leads to. */
  function Requested(o: Outcome): seq<string>
  {
    match o
    case NoResponse(_, endpoint) => [endpoint]
    case Fetched(_, endpoint, _) => [endpoint]
    case _ => []
  }

  /** The files a comment leads to. */
  function SavedBy(o: Outcome): seq<Save>
  {
    if o.Fetched? then o.saving.saves else []
  }

  /** Whether the comment's `except` branch prints an error. */
  function ErrorOf(o: Outcome): nat
  {
    match o
    case NoMention => 0
    case Fetched(_, _, saving) => if saving.failed then 1 else 0
    case _ => 1
  }

  /** What a run over several comments amounts to: the requests, the files saved in order and the errors printed. */
  datatype Run = Run(requests: seq<string>, saves: seq<Save>, errors: nat)

  function RunOf(os: seq<Outcome>): Run
    decreases |os|
  {
    if os == [] then Run([], [], 0)
    else
      var r := RunOf(os[..|os| - 1]);
      var o := os[|os| - 1];
      Run(r.requests + Requested(o), r.saves + SavedBy(o), r.errors + ErrorOf(o))
  }

  function Outcomes(epicName: string, bodies: seq<string>, responses: map<string, seq<Change>>): (os: seq<Outcome>)
    ensures |os| == |bodies|
    ensures forall i :: 0 <= i < |bodies| ==> os[i] == CommentOutcome(epicName, bodies[i], responses)
  {
    seq(|bodies|, i requires 0 <= i < |bodies| => CommentOutcome(epicName, bodies[i], responses))
  }

  lemma RunStep(os: seq<Outcome>, i: nat)
    requires i < |os|
    ensures RunOf(os[..i + 1]) ==
      Run(RunOf(os[..i]).requests + Requested(os[i]), RunOf(os[..i]).saves + SavedBy(os[i]), RunOf(os[..i]).errors + ErrorOf(os[i]))
  {
    assert os[..i + 1][..i] == os[..i];
  }

  /** Each comment leads to at most one request and at most one error. */
  lemma {:induction false} RunBounds(os: seq<Outcome>)
    ensures |RunOf(os).requests| <= |os|
    ensures RunOf(os).errors <= |os|
    decreases |os|
  {
    if os != [] {
      RunBounds(os[..|os| - 1]);
    }
  }

  /** No error is printed exactly when no comment raises. */
  lemma {:induction false} NoErrorsIff(os: seq<Outcome>)
    ensures RunOf(os).errors == 0 <==> forall i :: 0 <= i < |os| ==> ErrorOf(os[i]) == 0
    decreases |os|
  {
    if os != [] {
      var n := |os| - 1;
      var init := os[..n];
      NoErrorsIff(init);
      assert RunOf(os).errors == RunOf(init).errors + ErrorOf(os[n]);
      if RunOf(os).errors == 0 {
        forall i | 0 <= i < |os|
          ensures ErrorOf(os[i]) == 0
        {
          if i < n {
            assert init[i] == os[i];
          }
        }
      } else if RunOf(init).errors != 0 {
        var i :| 0 <= i < n && ErrorOf(init[i]) != 0;
        assert init[i] == os[i];
      }
    }
  }

  /** Every request is made for some comment. */
  lemma {:induction false} RequestOfSomeComment(os: seq<Outcome>, e: string)
    requires e in RunOf(os).requests
    ensures exists i :: 0 <= i < |os| && e in Requested(os[i])
    decreases |os|
  {
    var n := |os| - 1;
    var r := RunOf(os[..n]);
    if e in r.requests {
      RequestOfSomeComment(os[..n], e);
      var i :| 0 <= i < n && e in Requested(os[..n][i]);
      assert os[..n][i] == os[i];
    } else {
      assert e in Requested(os[n]);
    }
  }

  /**
   * Every request is the changes endpoint of a link found in a comment that
   * mentions `merge_requests`.
   */
  lemma RequestsComeFromLinks(epicName: string, bodies: seq<string>, responses: map<string, seq<Change>>, e: string)
    requires e in RunOf(Outcomes(epicName, bodies, responses)).requests
    ensures exists i, link ::
      0 <= i < |bodies| && Contains(bodies[i], "merge_requests") &&
      FindMergeRequestLink(bodies[i]) == Some(link) && MergeRequestChangesUrl(link) == Success(e)
  {
    var os := Outcomes(epicName, bodies, responses);
    RequestOfSomeComment(os, e);
    var i :| 0 <= i < |os| && e in Requested(os[i]);
    RequestOfComment(epicName, bodies[i], responses, e);
    var link := FindMergeRequestLink(bodies[i]).value;
    assert FindMergeRequestLink(bodies[i]) == Some(link);
  }

  lemma RequestOfComment(epicName: string, body: string, responses: map<string, seq<Change>>, e: string)
    requires e in Requested(CommentOutcome(epicName, body, responses))
    ensures Contains(body, "merge_requests") && FindMergeRequestLink(body).Some?
    ensures MergeRequestChangesUrl(FindMergeRequestLink(body).value) == Success(e)
  {
  }

  /** A comment that does not mention `merge_requests` adds nothing to the run. */
  lemma UnmentionedIgnored(os: seq<Outcome>)
    ensures RunOf(os + [NoMention]) == RunOf(os)
  {
    assert (os + [NoMention])[..|os|] == os;
  }

  /** One more comment: its request, files and error join the run, and its files are written after the earlier ones. */
  lemma CommentRunStep(os: seq<Outcome>, i: nat, requests: seq<string>, saves: seq<Save>, errors: nat,
                       request: seq<string>, saved: seq<Save>, error: nat,
                       files0: map<string, string>, folders0: set<string>)
    requires i < |os| && RunOf(os[..i]) == Run(requests, saves, errors)
    requires request == Requested(os[i]) && saved == SavedBy(os[i]) && error == ErrorOf(os[i])
    ensures RunOf(os[..i + 1]) == Run(requests + request, saves + saved, errors + error)
    ensures Overwrite(files0, Pairs(saves + saved)) == Overwrite(Overwrite(files0, Pairs(saves)), Pairs(saved))
    ensures folders0 + FolderSet(saves + saved) == folders0 + FolderSet(saves) + FolderSet(saved)
  {
    RunStep(os, i);
    PairsAppend(saves, saved);
    OverwriteAppend(files0, Pairs(saves), Pairs(saved));
    FolderSetAppend(saves, saved);
  }

  /**
   * The body of the loop over an issue's comments, with its inner `try`:
   * the request made, the files saved and the number of errors printed.
   */
  method HandleComment(epicName: string, body: string, responses: map<string, seq<Change>>,
                       files0: map<string, string>, folders0: set<string>)
    returns (request: seq<string>, saved: seq<Save>, error: nat, files: map<string, string>, folders: set<string>)
    ensures var o := CommentOutcome(epicName, body, responses);
      request == Requested(o) && saved == SavedBy(o) && error == ErrorOf(o)
    ensures files == Overwrite(files0, Pairs(saved)) && folders == folders0 + FolderSet(saved)
  {
    request, saved, error, files, folders := [], [], 0, files0, folders0;
    assert Pairs([]) == [];
    if !Contains(body, "merge_requests") {
      return;
    }
    var link := FindMergeRequestLink(body);
    if link.None? {
      error := 1;
      return;
    }
    var endpoint := MergeRequestChangesUrl(link.value);
    if endpoint.Failure? {
      error := 1;
      return;
    }
    request := [endpoint.value];
    if endpoint.value !in responses {
      error := 1;
      return;
    }
    var s;
    s, files, folders := DownloadChanges(epicName, responses[endpoint.value], files0, folders0);
    saved := s.saves;
    if s.failed {
      error := 1;
    }
  }

  /** How many comments come before the first one without a `body`. */
  function FirstMissing(comments: seq<Option<string>>): (n: nat)
    ensures n <= |comments|
    ensures forall k :: 0 <= k < n ==> comments[k].Some?
    ensures n < |comments| ==> comments[n].None?
  {
    if comments == [] || comments[0].None? then 0 else 1 + FirstMissing(comments[1..])
  }

  /** The bodies the loop reads before a comment without one ends it. */
  function Bodies(comments: seq<Option<string>>): (bodies: seq<string>)
    ensures |bodies| == FirstMissing(comments)
    ensures forall k :: 0 <= k < |bodies| ==> bodies[k] == comments[k].value
  {
    seq(FirstMissing(comments), k requires 0 <= k < FirstMissing(comments) => comments[k].value)
  }

  /**
   * The loop over an issue's comments in `Get_Git_Commit_Link_From_Issue`.
   * `comments` is None where the issue's JSON has no comment list; an entry
   * is None where the comment has no `body`. Both raise outside the inner
   * `try`, so the outer `except` reports them and the loop ends there.
   */
  method GetMergeRequestsFromComments(epicName: string, comments: Option<seq<Option<string>>>,
                                      responses: map<string, seq<Change>>,
                                      files0: map<string, string>, folders0: set<string>)
    returns (requests: seq<string>, files: map<string, string>, folders: set<string>, errors: nat)
    ensures comments.None? ==> requests == [] && files == files0 && folders == folders0 && errors == 1
    ensures comments.Some? ==>
      var cs := comments.value;
      var r := RunOf(Outcomes(epicName, Bodies(cs), responses));
      requests == r.requests && errors == r.errors + (if FirstMissing(cs) < |cs| then 1 else 0) &&
      files == Overwrite(files0, Pairs(r.saves)) && folders == folders0 + FolderSet(r.saves)
  {
    requests, files, folders, errors := [], files0, folders0, 0;
    if comments.None? {
      errors := 1;
      return;
    }
    var cs := comments.value;
    ghost var os := Outcomes(epicName, Bodies(cs), responses);
    ghost var saves: seq<Save> := [];
    assert Pairs([]) == [];
    var i := 0;
    while i < |cs| && cs[i].Some?
      invariant i <= FirstMissing(cs)
      invariant RunOf(os[..i]) == Run(requests, saves, errors)
      invariant files == Overwrite(files0, Pairs(saves))
      invariant folders == folders0 + FolderSet(saves)
    {
      var body := cs[i].value;
      var request, saved, error, files', folders' := HandleComment(epicName, body, responses, files, folders);
      assert os[i] == CommentOutcome(epicName, body, responses);
      CommentRunStep(os, i, requests, saves, errors, request, saved, error, files0, folders0);
      requests, files, folders, errors := requests + request, files', folders', errors + error;
      saves := saves + saved;
      i := i + 1;
    }
    assert i == FirstMissing(cs);
    assert os[..i] == os;
    if i < |cs| {
      errors := errors + 1;
    }
  }

  /** The example merge request URL of the script, on any host: `https://<host>/baseproject/projectName/-/merge_requests/177`. */
  lemma ExampleMergeRequest(host: string)
    requires IsHost(host) && IsPlainPiece(host)
    ensures var parts := ["https:", "", host, "baseproject", "projectName", "-", "merge_requests", "177"];
      ResolveMergeRequest(Join(parts, '/')) == Success(MergeRequestRef("baseproject%2FprojectName", "177"))
  {
    var parts := ["https:", "", host, "baseproject", "projectName", "-", "merge_requests", "177"];
    ExamplePiecesPlain();
    assert IsPlainPiece("baseproject") && IsPlainPiece("projectName");
    ResolveMergeRequestOfPieces(parts);
    assert "baseproject" + "%2F" + "projectName" == "baseproject%2FprojectName";
  }
}
