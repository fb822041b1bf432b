# gh-ws, modelled in Dafny

gh-ws is a `gh` extension. It builds a VS Code workspace file from a repository's git
worktrees. `init` lists the worktrees with `git worktree list --porcelain` and writes
one folder entry per worktree to `~/ghq/workspaces/<repo>.code-workspace`. It then
opens the editor on that file. `clean` rewrites the same file from the current
worktrees. `list` prints the workspace files in that directory, without the suffix.
Any other argument opens the existing file in the editor.

This project models the logic between the external calls in `main.go`:

- parsing the porcelain worktree listing;
- building the workspace value;
- deriving the repository name from the remote URL;
- the workspace file name;
- the listing filter;
- the decisions of `init`, `clean` and the default command.

Every external answer is a parameter. That covers git's output or failure, the
directory entries, whether the write succeeds, and what `os.Stat` reports.

Files:

- `go_strings.dfy`, module `GoStrings`. It models the Go `strings` functions the
  code relies on: `Split`, `HasPrefix`/`TrimPrefix`, `HasSuffix`/`TrimSuffix` and
  `TrimSpace` (with `unicode.IsSpace`). Each comes with the partner that pins it
  down. `Split` has `Join` as its inverse. The last piece of `Split` has an
  independent definition, `LastSegment`. Uniqueness lemmas cover the trims.
- `gh_ws.dfy`, module `GhWs`: the program itself. `getWorktrees`, `createWorkspace`
  and `listWorkspaces` build slices in loops, so they are methods with loops. Each
  is proved against a specification function (`ParseWorktrees`, `WorkspaceOf`,
  `ListedNames`). Lemmas state the properties of those functions.
  `getRepoName`, the file name, and the `init`/`clean`/open decisions are
  functions.

Two consequences of the code are worth stating, because the fallback name
suggests otherwise:

- **URL without a slash.** Such a URL is its own name, less one trailing `.git`
  (`RepoNameOfPlainUrl`). It does not give the fallback `workspace`.
- **Blank output.** Blank output from a successful `git config` gives the empty
  name, not `workspace` (`RepoNameOfBlankOutput`). `strings.Split` always
  returns at least one piece, so the `len(parts) > 0` guard at `main.go:123`
  always holds. The model keeps the guard, and its `else` branch is marked
  unreachable.

## Model

| member | source | states |
|---|---|---|
| `GoStrings.HasPrefix` | main.go:82 | `strings.HasPrefix`: `s` is at least as long as `prefix` and starts with it |
| `GoStrings.HasPrefixIff` | main.go:82 | `HasPrefix` holds exactly when `s` is `prefix` followed by something |
| `GoStrings.HasSuffix` | main.go:153 | `strings.HasSuffix`: `s` is at least as long as `suffix` and ends with it |
| `GoStrings.HasSuffixIff` | main.go:153 | `HasSuffix` holds exactly when `s` is something followed by `suffix` |
| `GoStrings.IsSpace` | main.go:120 | `unicode.IsSpace`, as `strings.TrimSpace` uses it: exactly the Latin-1 spaces `\t \n \v \f \r`, space, U+0085, U+00A0, and the other White_Space code points U+1680, U+2000-U+200A, U+2028, U+2029, U+202F, U+205F, U+3000 |
| `GoStrings.Split` | main.go:79 | like Go's `strings.Split`, never returns an empty list |
| `GoStrings.SplitPartsOmitSep` | main.go:79 | no piece contains the separator |
| `GoStrings.JoinSplit` | main.go:79 | joining the pieces with the separator gives back the input (nothing lost) |
| `GoStrings.SplitJoin` | main.go:79 | splitting a join of separator-free pieces gives back those pieces (`Split` and `Join` are inverse) |
| `GoStrings.SplitNoSep` | main.go:122 | a string without the separator is one piece, itself (so a URL without `/` is its own last segment) |
| `GoStrings.SplitAppend` | main.go:79 | pieces of `a + sep + b` are the pieces of `a` followed by those of `b` |
| `GoStrings.LastSegment` | main.go:124 | the text after the last separator: separator-free, a suffix of the input, preceded by a separator unless it is the whole input |
| `GoStrings.SplitLast` | main.go:122-124 | the last piece `Split` returns is `LastSegment` |
| `GoStrings.LastSegmentAfter` | main.go:124 | whatever precedes the last separator, the last segment is what follows it |
| `GoStrings.TrimPrefix` | main.go:83 | with the prefix present, `prefix + result` is the input; otherwise the input is unchanged |
| `GoStrings.TrimSuffix` | main.go:125 | with the suffix present, `result + suffix` is the input; otherwise the input is unchanged |
| `GoStrings.PrefixedIff` | main.go:82-83 | `HasPrefix` holds and `TrimPrefix` yields `rest` exactly when the line is `prefix + rest` |
| `GoStrings.SuffixedIff` | main.go:153-154 | `HasSuffix` holds and `TrimSuffix` yields `rest` exactly when the name is `rest + suffix` |
| `GoStrings.TrimSuffixKeepsOut` | main.go:125 | trimming `.git` introduces no character, so the name keeps having no `/` |
| `GoStrings.TrimLeadingSpace` | main.go:120 | removes exactly the leading white space: a suffix of the input, all removed characters white space, result not starting with white space |
| `GoStrings.TrimTrailingSpace` | main.go:120 | removes exactly the trailing white space, symmetrically |
| `GoStrings.TrimSpace` | main.go:120 | the result neither starts nor ends with white space and is a slice of the input with only white space around it |
| `GoStrings.TrimLeadingPadded` | main.go:120 | leading white space before a non-space is exactly what is removed |
| `GoStrings.TrimTrailingPadded` | main.go:120 | trailing white space after a non-space is exactly what is removed |
| `GoStrings.TrimSpacePadded` | main.go:120 | uniqueness: white-space padding around a trimmed string is undone exactly |
| `GhWs.WorktreePaths` | main.go:81-86 | at most one path per line (its meaning is in the lemmas below) |
| `GhWs.ParseWorktrees` | main.go:78-86 | the paths are cut from single lines, so none contains a newline |
| `GhWs.WorktreePathsAppend` | main.go:81-86 | order preserved: the paths of `a + b` are those of `a` followed by those of `b` |
| `GhWs.WorktreePathsMembers` | main.go:82-84 | `p` is returned exactly when some line reads `worktree ` followed by `p` (both directions) |
| `GhWs.WorktreePathsEmpty` | main.go:78-88 | the result is empty exactly when no line starts with `worktree ` (`HEAD`, `branch`, blank lines contribute nothing) |
| `GhWs.ParseAppend` | main.go:79-86 | on raw output, the worktrees of `a + "\n" + b` are those of `a` followed by those of `b` |
| `GhWs.ParseLine` | main.go:82-85 | a single line gives its path, prefix removed, if it is a `worktree ` line, else nothing |
| `GhWs.GetWorktrees` | main.go:71-88 | a failed git call is returned as that error; otherwise `Ok` of the parsed paths, empty included (proved by loop invariant) |
| `GhWs.WorkspaceOf` | main.go:91-98 | as many folders as paths, folder `i` has path `i` verbatim |
| `GhWs.FolderPaths` | main.go:17 | one path per folder |
| `GhWs.WorkspaceOfInverse` | main.go:94-96 | building from paths and reading the paths back are mutually inverse (no dedup, sort or validation) |
| `GhWs.CreateWorkspace` | main.go:91-99 | the loop yields exactly one folder per worktree, folder `i` = worktree `i` |
| `GhWs.CreatedIsWorkspaceOf` | main.go:91-99 | what `CreateWorkspace` returns is the workspace `WorkspaceOf` specifies |
| `GhWs.UrlRepoName` | main.go:120-129 | the name has no `/`; it is the URL's last `/` segment, with one trailing `.git` removed if present |
| `GhWs.RepoName` | main.go:113-130 | failed git call gives `workspace`; a successful one gives the trimmed URL's last segment less one `.git` |
| `GhWs.FallbackOnlyOnFailure` | main.go:122-129 | the `len(parts) > 0` guard always holds; after a successful call `workspace` appears only when the last segment is `workspace` or `workspace.git` |
| `GhWs.UrlRepoNameOfGitSegment` | main.go:122-126 | a URL `host/repo.git` names `repo` |
| `GhWs.RepoNameOfGitUrl` | main.go:120-126 | git output `host/repo.git` plus a trailing newline names `repo`; only one `.git` goes |
| `GhWs.RepoNameOfPlainUrl` | main.go:122-126 | a URL with no `/` and no `.git` is its own name, not the fallback |
| `GhWs.RepoNameOfBlankOutput` | main.go:120-126 | blank output gives the empty name, not `workspace` |
| `GhWs.WorkspaceFileName` | main.go:110 | the file name ends in `.code-workspace`, and stripping it gives the repository name back |
| `GhWs.WorkspaceFile` | main.go:109-110 | the workspace file of a repository carries the suffix around `RepoName` |
| `GhWs.ListedNames` | main.go:152-156 | at most one name per directory entry |
| `GhWs.ListedNamesAppend` | main.go:152-157 | the order of the entries is kept; that order is whatever `os.ReadDir` yields (sorted by file name), and the model leaves it free |
| `GhWs.ListedNamesMembers` | main.go:153-154 | `n` is listed exactly when the directory holds `n.code-workspace` |
| `GhWs.ListRoundTrip` | main.go:152-156 | the file written for `repoName`, anywhere among other entries, lists as `repoName` in its place |
| `GhWs.ListWorkspaces` | main.go:141-158 | an unreadable directory gives its error and no names; otherwise the listed names in the order `os.ReadDir` gave the entries, sorted by file name (proved by loop invariant) |
| `GhWs.Init` | main.go:42-69 | listing error ends it, and only a listing error gives `ListingFailed`; no worktree means nothing written; a failed write with at least one worktree, and only that, gives `SaveFailed` (exit status 1); otherwise the workspace of the parsed paths is written to the repository's file and the editor opened |
| `GhWs.Clean` | main.go:160-176 | only a listing error gives `ListingFailed`; never stops at "no worktrees"; a failed write after a successful listing, and only that, gives `SaveFailed` (exit status 1); otherwise writes the workspace of the parsed paths, empty or not, to the same file, without the editor |
| `GhWs.CleanIsInitWithoutEmptyCheck` | main.go:49-60 | whenever `init` gets past the empty check, `clean` does the same, less the editor launch |
| `GhWs.EmptyListing` | main.go:49-52 | with no `worktree ` line, `init` writes nothing and `clean` writes an empty workspace |
| `GhWs.Open` | main.go:178-191 | the editor is launched unless `stat` says the file does not exist; other `stat` errors still launch it |

## Left out

- Running `git worktree list`, `git config` and `code` (`exec.Command`). Their results are parameters: `CommandResult` for git; for the editor, `launchEditor` records only that a launch is attempted. An editor failure is only printed, so it changes no outcome.
- File system effects: `os.UserHomeDir`, `os.MkdirAll`, `os.WriteFile`, `os.ReadDir`, `os.Stat`. They become a `writeOk` flag, a `DirRead` value and a `stat` function.
- The `~/ghq/workspaces` directory and `filepath.Join`: only the file name is modelled; the directory is an opaque prefix.
- JSON serialisation (`json.MarshalIndent`) and the file's byte format. As a consequence, the model does not see that an empty Go slice is `nil`: `clean` with no worktree writes `"folders": null`, not `[]`.
- `main`'s argument dispatch, the usage text, the printed messages and exit statuses other than the `Outcome` constructors.
- Go strings are byte strings. This model works on Unicode code points, so invalid UTF-8 in git's output, which `strings.TrimSpace` treats byte by byte, is not modelled.
- `GoStrings.Split` models `strings.Split` for a one-character separator only. That is all the program uses (`"\n"` and `"/"`).
