/**
  gh-ws: derives an editor workspace file from a repository's git worktrees.

  The program shells out to git, the editor and the file system; here each
  of those answers is a parameter: the text git printed (or its failure),
  the entries of the workspace directory, whether a write succeeds,
  what `stat` says of a path.  What remains is the string and sequence
  logic between those calls.
 */
module GhWs {
  import opened GoStrings

  /** One folder root of the workspace. */
  datatype WorkspaceFolder = WorkspaceFolder(path: string)

  /** The workspace descriptor: folder roots in worktree order. */
  datatype Workspace = Workspace(folders: seq<WorkspaceFolder>)

  /** What an external git invocation gave back: its standard output, or the
      error `exec` reported. */
  datatype CommandResult = Succeeded(output: string) | Failed(err: string)

  datatype Result<T> = Ok(value: T) | Err(err: string)

  /** What reading the workspace directory gave back: the entry names in the
      order `os.ReadDir` yields them (sorted by file name), or the error.  The
      model leaves that order free. */
  datatype DirRead = Entries(names: seq<string>) | ReadError(err: string)

  const WorktreePrefix: string := "worktree "
  const WorkspaceSuffix: string := ".code-workspace"
  const GitSuffix: string := ".git"
  const FallbackName: string := "workspace"

  // ---------------------------------------------------------------------
  // getWorktrees: parsing `git worktree list --porcelain`
  // ---------------------------------------------------------------------

  /** The paths named by the `worktree ` lines among `lines`, in order. */
  function WorktreePaths(lines: seq<string>): (paths: seq<string>)
    ensures |paths| <= |lines|
  {
    if lines == [] then []
    else
      (if HasPrefix(lines[0], WorktreePrefix) then [TrimPrefix(lines[0], WorktreePrefix)] else [])
      + WorktreePaths(lines[1..])
  }

  /** The worktree paths of the porcelain output `output`: each is the rest
      of one line, so none holds a newline. */
  function ParseWorktrees(output: string): (paths: seq<string>)
    ensures forall p <- paths :: '\n' !in p
  {
    var lines := Split(output, '\n');
    SplitPartsOmitSep(output, '\n');
    forall p <- WorktreePaths(lines) ensures '\n' !in p {
      WorktreePathsMembers(lines, p);
      var i :| 0 <= i < |lines| && lines[i] == WorktreePrefix + p;
      assert lines[i] in lines;
      assert forall k :: 0 <= k < |p| ==> p[k] == lines[i][|WorktreePrefix| + k];
    }
    WorktreePaths(lines)
  }

  /** Order is preserved: the paths of two runs of lines are the paths of the
      first followed by the paths of the second. */
  lemma {:induction false} WorktreePathsAppend(a: seq<string>, b: seq<string>)
    ensures WorktreePaths(a + b) == WorktreePaths(a) + WorktreePaths(b)
    decreases |a|
  {
    if a != [] {
      assert (a + b)[0] == a[0];
      assert (a + b)[1..] == a[1..] + b;
      WorktreePathsAppend(a[1..], b);
    } else {
      assert a + b == b;
    }
  }

  /** `p` is reported exactly when some line reads `worktree ` followed by `p`. */
  lemma {:induction false} WorktreePathsMembers(lines: seq<string>, p: string)
    ensures p in WorktreePaths(lines) <==> exists i :: 0 <= i < |lines| && lines[i] == WorktreePrefix + p
    decreases |lines|
  {
    if lines != [] {
      PrefixedIff(lines[0], WorktreePrefix, p);
      WorktreePathsMembers(lines[1..], p);
      if p in WorktreePaths(lines[1..]) {
        var i :| 0 <= i < |lines[1..]| && lines[1..][i] == WorktreePrefix + p;
        assert lines[i + 1] == WorktreePrefix + p;
      }
      if exists i :: 0 <= i < |lines| && lines[i] == WorktreePrefix + p {
        var i :| 0 <= i < |lines| && lines[i] == WorktreePrefix + p;
        if i > 0 {
          assert lines[1..][i - 1] == WorktreePrefix + p;
        }
      }
    }
  }

  /** No worktree is found exactly when no line starts with `worktree `;
      that is an empty result, not an error. */
  lemma {:induction false} WorktreePathsEmpty(lines: seq<string>)
    ensures WorktreePaths(lines) == [] <==> forall i :: 0 <= i < |lines| ==> !HasPrefix(lines[i], WorktreePrefix)
    decreases |lines|
  {
    if lines != [] {
      WorktreePathsEmpty(lines[1..]);
      if forall i :: 0 <= i < |lines[1..]| ==> !HasPrefix(lines[1..][i], WorktreePrefix) {
        forall i | 0 < i < |lines| ensures !HasPrefix(lines[i], WorktreePrefix) {
          assert lines[i] == lines[1..][i - 1];
        }
      }
    }
  }

  /** On the raw output: the worktrees of two blocks separated by a newline
      are those of the first block followed by those of the second. */
  lemma ParseAppend(a: string, b: string)
    ensures ParseWorktrees(a + "\n" + b) == ParseWorktrees(a) + ParseWorktrees(b)
  {
    SplitAppend(a, b, '\n');
    WorktreePathsAppend(Split(a, '\n'), Split(b, '\n'));
  }

  /** A single line (no newline in it) yields its path when it is a
      `worktree ` line and nothing otherwise. */
  lemma ParseLine(line: string)
    requires '\n' !in line
    ensures ParseWorktrees(line) == if HasPrefix(line, WorktreePrefix) then [TrimPrefix(line, WorktreePrefix)] else []
  {
    SplitNoSep(line, '\n');
  }

  /** `getWorktrees`: a failed git call is passed on as the error; otherwise
      the paths of the `worktree ` lines, in order. */
  method GetWorktrees(listing: CommandResult) returns (r: Result<seq<string>>)
    ensures listing.Failed? ==> r == Err(listing.err)
    ensures listing.Succeeded? ==> r == Ok(ParseWorktrees(listing.output))
  {
    if listing.Failed? {
      return Err(listing.err);
    }
    var lines := Split(listing.output, '\n');
    var worktrees: seq<string> := [];
    for i := 0 to |lines|
      invariant worktrees == WorktreePaths(lines[..i])
    {
      if HasPrefix(lines[i], WorktreePrefix) {
        worktrees := worktrees + [TrimPrefix(lines[i], WorktreePrefix)];
      }
      assert lines[..i + 1] == lines[..i] + [lines[i]];
      WorktreePathsAppend(lines[..i], [lines[i]]);
    }
    assert lines[..|lines|] == lines;
    return Ok(worktrees);
  }

  // ---------------------------------------------------------------------
  // createWorkspace
  // ---------------------------------------------------------------------

  /** The workspace with one folder per path, in the same order. */
  function WorkspaceOf(paths: seq<string>): (ws: Workspace)
    ensures |ws.folders| == |paths|
    ensures forall i :: 0 <= i < |paths| ==> ws.folders[i].path == paths[i]
    decreases |paths|
  {
    if paths == [] then Workspace([])
    else Workspace([WorkspaceFolder(paths[0])] + WorkspaceOf(paths[1..]).folders)
  }

  /** The folder paths of a workspace, in order. */
  function FolderPaths(ws: Workspace): (paths: seq<string>)
    ensures |paths| == |ws.folders|
  {
    seq(|ws.folders|, i requires 0 <= i < |ws.folders| => ws.folders[i].path)
  }

  /** Building a workspace keeps every path verbatim: no path is dropped,
      merged, reordered or checked, and every workspace is built from its
      own folder paths. */
  lemma WorkspaceOfInverse(paths: seq<string>, ws: Workspace)
    ensures FolderPaths(WorkspaceOf(paths)) == paths
    ensures WorkspaceOf(FolderPaths(ws)) == ws
  {
    var back := WorkspaceOf(FolderPaths(ws));
    assert back.folders == ws.folders by {
      forall i | 0 <= i < |ws.folders| ensures back.folders[i] == ws.folders[i] {
        assert back.folders[i].path == ws.folders[i].path;
      }
    }
  }

  /** `createWorkspace`: one folder per worktree path, in the same order. */
  method CreateWorkspace(worktrees: seq<string>) returns (ws: Workspace)
    ensures |ws.folders| == |worktrees|
    ensures forall i :: 0 <= i < |worktrees| ==> ws.folders[i] == WorkspaceFolder(worktrees[i])
  {
    var folders: seq<WorkspaceFolder> := [];
    for i := 0 to |worktrees|
      invariant |folders| == i
      invariant forall k :: 0 <= k < i ==> folders[k] == WorkspaceFolder(worktrees[k])
    {
      folders := folders + [WorkspaceFolder(worktrees[i])];
    }
    return Workspace(folders);
  }

  /** What `CreateWorkspace` returns is the workspace `WorkspaceOf` specifies. */
  lemma CreatedIsWorkspaceOf(worktrees: seq<string>, ws: Workspace)
    requires |ws.folders| == |worktrees|
    requires forall i :: 0 <= i < |worktrees| ==> ws.folders[i] == WorkspaceFolder(worktrees[i])
    ensures ws == WorkspaceOf(worktrees)
  {
    var spec := WorkspaceOf(worktrees);
    forall i | 0 <= i < |worktrees| ensures spec.folders[i] == ws.folders[i] {
      assert spec.folders[i].path == worktrees[i];
    }
    assert spec.folders == ws.folders;
  }

  // ---------------------------------------------------------------------
  // getRepoName and the workspace file name
  // ---------------------------------------------------------------------

  /** The repository name a remote URL names: its last `/`-separated
      segment, less one trailing `.git`. */
  function UrlRepoName(url: string): (name: string)
    ensures '/' !in name
    ensures var seg := LastSegment(url, '/');
              if HasSuffix(seg, GitSuffix) then name + GitSuffix == seg else name == seg
  {
    var parts := Split(url, '/');
    if |parts| > 0 then
      var last := parts[|parts| - 1];
      SplitLast(url, '/');
      assert last == LastSegment(url, '/');
      TrimSuffixKeepsOut(last, GitSuffix, '/');
      TrimSuffix(last, GitSuffix)
    else
      // unreachable: `Split` never returns an empty list
      assert false; FallbackName
  }

  /** `getRepoName`: the repository name of the trimmed remote URL; the
      literal `workspace` when git fails. */
  function RepoName(remote: CommandResult): (name: string)
    ensures remote.Failed? ==> name == FallbackName
    ensures remote.Succeeded? ==> '/' !in name
    ensures remote.Succeeded? ==>
              var seg := LastSegment(TrimSpace(remote.output), '/');
              if HasSuffix(seg, GitSuffix) then name + GitSuffix == seg else name == seg
  {
    match remote
    case Failed(_) => FallbackName
    case Succeeded(output) => UrlRepoName(TrimSpace(output))
  }

  /** On a successful git call the `len(parts) > 0` guard always holds, so
      the literal `workspace` comes back only when the last segment of the
      URL is itself `workspace` or `workspace.git`. */
  lemma FallbackOnlyOnFailure(output: string)
    ensures |Split(TrimSpace(output), '/')| > 0
    ensures RepoName(Succeeded(output)) == FallbackName ==>
              LastSegment(TrimSpace(output), '/') in {FallbackName, FallbackName + GitSuffix}
  {
    var seg := LastSegment(TrimSpace(output), '/');
    if RepoName(Succeeded(output)) == FallbackName && HasSuffix(seg, GitSuffix) {
      assert seg == FallbackName + GitSuffix;
    }
  }

  /** The repository name of a URL whose last segment is `repo.git`. */
  lemma UrlRepoNameOfGitSegment(host: string, repo: string)
    requires '/' !in repo
    ensures UrlRepoName(host + "/" + repo + GitSuffix) == repo
  {
    var seg := repo + GitSuffix;
    assert host + "/" + repo + GitSuffix == host + ['/'] + seg;
    LastSegmentAfter(host, seg, '/');
    SuffixedIff(seg, GitSuffix, repo);
    var name := UrlRepoName(host + ['/'] + seg);
    assert name == (name + GitSuffix)[..|name|];
  }

  /** A remote URL `host/repo.git`, with white space after it (git ends its
      output with a newline), names `repo`; only that one `.git` is removed,
      so `repo` may itself end in `.git`. */
  lemma RepoNameOfGitUrl(host: string, repo: string, trail: string)
    requires host != [] ==> !IsSpace(host[0])
    requires '/' !in repo
    requires forall k :: 0 <= k < |trail| ==> IsSpace(trail[k])
    ensures RepoName(Succeeded(host + "/" + repo + GitSuffix + trail)) == repo
  {
    var url := host + "/" + repo + GitSuffix;
    assert url + trail == [] + url + trail;
    assert url[0] == if host == [] then '/' else host[0];
    assert url[|url| - 1] == 't';
    TrimSpacePadded([], url, trail);
    UrlRepoNameOfGitSegment(host, repo);
  }

  /** A URL without `/` and without `.git` is its own repository name. */
  lemma RepoNameOfPlainUrl(url: string)
    requires '/' !in url
    requires !HasSuffix(url, GitSuffix)
    requires url != [] ==> !IsSpace(url[0]) && !IsSpace(url[|url| - 1])
    ensures RepoName(Succeeded(url)) == url
  {
    assert [] + url + [] == url;
    TrimSpacePadded([], url, []);
    assert LastSegment(url, '/') == url;
  }

  /** Output that is only white space gives the empty name, not the
      `workspace` fallback. */
  lemma RepoNameOfBlankOutput(output: string)
    requires forall k :: 0 <= k < |output| ==> IsSpace(output[k])
    ensures RepoName(Succeeded(output)) == ""
  {
    assert output + [] + [] == output;
    TrimSpacePadded(output, [], []);
  }

  /** The workspace file's name for a repository name: it carries the
      workspace suffix, and stripping that suffix gives the name back. */
  function WorkspaceFileName(repoName: string): (file: string)
    ensures HasSuffix(file, WorkspaceSuffix) && TrimSuffix(file, WorkspaceSuffix) == repoName
  {
    SuffixedIff(repoName + WorkspaceSuffix, WorkspaceSuffix, repoName);
    repoName + WorkspaceSuffix
  }

  // ---------------------------------------------------------------------
  // listWorkspaces
  // ---------------------------------------------------------------------

  /** The workspace names among directory entries: the entries with the
      workspace suffix, suffix removed, in directory order. */
  function ListedNames(entries: seq<string>): (names: seq<string>)
    ensures |names| <= |entries|
  {
    if entries == [] then []
    else
      (if HasSuffix(entries[0], WorkspaceSuffix) then [TrimSuffix(entries[0], WorkspaceSuffix)] else [])
      + ListedNames(entries[1..])
  }

  /** Directory order is kept. */
  lemma {:induction false} ListedNamesAppend(a: seq<string>, b: seq<string>)
    ensures ListedNames(a + b) == ListedNames(a) + ListedNames(b)
    decreases |a|
  {
    if a != [] {
      assert (a + b)[0] == a[0];
      assert (a + b)[1..] == a[1..] + b;
      ListedNamesAppend(a[1..], b);
    } else {
      assert a + b == b;
    }
  }

  /** `n` is listed exactly when the directory holds the file named for `n`. */
  lemma {:induction false} ListedNamesMembers(entries: seq<string>, n: string)
    ensures n in ListedNames(entries) <==> WorkspaceFileName(n) in entries
    decreases |entries|
  {
    if entries != [] {
      SuffixedIff(entries[0], WorkspaceSuffix, n);
      ListedNamesMembers(entries[1..], n);
      assert entries == [entries[0]] + entries[1..];
    }
  }

  /** Round trip: the file written for `repoName`, wherever it sits among
      other entries, is listed as `repoName`, in its place. */
  lemma ListRoundTrip(before: seq<string>, repoName: string, after: seq<string>)
    ensures ListedNames(before + [WorkspaceFileName(repoName)] + after)
            == ListedNames(before) + [repoName] + ListedNames(after)
  {
    ListedNamesAppend(before + [WorkspaceFileName(repoName)], after);
    ListedNamesAppend(before, [WorkspaceFileName(repoName)]);
  }

  /** `listWorkspaces`: a directory that cannot be read gives its error and
      no names; otherwise the listed names in directory order. */
  method ListWorkspaces(dir: DirRead) returns (r: Result<seq<string>>)
    ensures dir.ReadError? ==> r == Err(dir.err)
    ensures dir.Entries? ==> r == Ok(ListedNames(dir.names))
  {
    if dir.ReadError? {
      return Err(dir.err);
    }
    var files := dir.names;
    var names: seq<string> := [];
    for i := 0 to |files|
      invariant names == ListedNames(files[..i])
    {
      if HasSuffix(files[i], WorkspaceSuffix) {
        names := names + [TrimSuffix(files[i], WorkspaceSuffix)];
      }
      assert files[..i + 1] == files[..i] + [files[i]];
      ListedNamesAppend(files[..i], [files[i]]);
    }
    assert files[..|files|] == files;
    return Ok(names);
  }

  // ---------------------------------------------------------------------
  // The init, clean and default (open) commands
  // ---------------------------------------------------------------------

  /** How `init` or `clean` ends. */
  datatype Outcome =
    | ListingFailed(err: string)   // worktree listing failed: exit status 1, nothing written
    | NoWorktrees                  // no worktree found: nothing written, exit status 0
    | SaveFailed(file: string)     // the write of `file` failed: exit status 1
    | Saved(file: string, workspace: Workspace, launchEditor: bool)

  /** The name of the workspace file for this repository. */
  function WorkspaceFile(remote: CommandResult): (file: string)
    ensures HasSuffix(file, WorkspaceSuffix) && TrimSuffix(file, WorkspaceSuffix) == RepoName(remote)
  {
    WorkspaceFileName(RepoName(remote))
  }

  /** `initWorkspace`: writes the workspace only when at least one worktree
      is found, then opens the editor on it. */
  function Init(listing: CommandResult, remote: CommandResult, writeOk: bool): (o: Outcome)
    ensures listing.Failed? ==> o == ListingFailed(listing.err)
    ensures o.ListingFailed? <==> listing.Failed?
    ensures o == NoWorktrees <==> listing.Succeeded? && ParseWorktrees(listing.output) == []
    ensures o.SaveFailed? <==> listing.Succeeded? && ParseWorktrees(listing.output) != [] && !writeOk
    ensures o.Saved? ==> o.launchEditor && o.workspace.folders != []
    ensures o.Saved? ==> listing.Succeeded? && FolderPaths(o.workspace) == ParseWorktrees(listing.output)
    ensures (o.Saved? || o.SaveFailed?) ==> o.file == WorkspaceFile(remote)
    ensures o.Saved? <==> listing.Succeeded? && ParseWorktrees(listing.output) != [] && writeOk
  {
    match listing
    case Failed(err) => ListingFailed(err)
    case Succeeded(output) =>
      var worktrees := ParseWorktrees(output);
      if |worktrees| == 0 then NoWorktrees
      else
        var ws := WorkspaceOf(worktrees);
        var file := WorkspaceFile(remote);
        WorkspaceOfInverse(worktrees, ws);
        if writeOk then Saved(file, ws, true) else SaveFailed(file)
  }

  /** `cleanWorkspace`: rewrites the workspace from the current worktrees,
      whatever their number, and does not open the editor. */
  function Clean(listing: CommandResult, remote: CommandResult, writeOk: bool): (o: Outcome)
    ensures listing.Failed? ==> o == ListingFailed(listing.err)
    ensures o.ListingFailed? <==> listing.Failed?
    ensures o != NoWorktrees
    ensures o.SaveFailed? <==> listing.Succeeded? && !writeOk
    ensures o.Saved? ==> !o.launchEditor
    ensures o.Saved? ==> listing.Succeeded? && FolderPaths(o.workspace) == ParseWorktrees(listing.output)
    ensures (o.Saved? || o.SaveFailed?) ==> o.file == WorkspaceFile(remote)
    ensures o.Saved? <==> listing.Succeeded? && writeOk
  {
    match listing
    case Failed(err) => ListingFailed(err)
    case Succeeded(output) =>
      var file := WorkspaceFile(remote);
      var worktrees := ParseWorktrees(output);
      var ws := WorkspaceOf(worktrees);
      WorkspaceOfInverse(worktrees, ws);
      if writeOk then Saved(file, ws, false) else SaveFailed(file)
  }

  /** `clean` does what `init` does, less the empty check and the editor:
      whenever `init` gets as far as writing, `clean` writes the same
      workspace to the same file. */
  lemma CleanIsInitWithoutEmptyCheck(listing: CommandResult, remote: CommandResult, writeOk: bool)
    requires Init(listing, remote, writeOk) != NoWorktrees
    ensures var i, c := Init(listing, remote, writeOk), Clean(listing, remote, writeOk);
            (i.Saved? ==> c == i.(launchEditor := false)) && (!i.Saved? ==> c == i)
  {
  }

  /** With no worktree line at all, `init` writes nothing while `clean`
      writes a workspace with no folders. */
  lemma EmptyListing(output: string, remote: CommandResult)
    requires forall line <- Split(output, '\n') :: !HasPrefix(line, WorktreePrefix)
    ensures Init(Succeeded(output), remote, true) == NoWorktrees
    ensures Clean(Succeeded(output), remote, true) == Saved(WorkspaceFile(remote), Workspace([]), false)
  {
    var lines := Split(output, '\n');
    WorktreePathsEmpty(lines);
  }

  /** What `os.Stat` said of the workspace file. */
  datatype StatResult = Exists | NotExist | OtherStatError

  /** How the default command ends. */
  datatype OpenOutcome = LaunchEditor(file: string) | NotFound(file: string)

  /** `openWorkspace`: the editor is launched on the workspace file unless
      `stat` reports that it does not exist; any other `stat` error still
      launches the editor. */
  function Open(remote: CommandResult, stat: string -> StatResult): (o: OpenOutcome)
    ensures o.file == WorkspaceFile(remote)
    ensures o.NotFound? <==> stat(WorkspaceFile(remote)) == NotExist
  {
    var file := WorkspaceFile(remote);
    if stat(file) == NotExist then NotFound(file) else LaunchEditor(file)
  }
}
