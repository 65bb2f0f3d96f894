# git-squash-tree: the recorder, the hook rules and the repository helpers

`git squash-tree` keeps a record of which commits were folded into a squash commit. The record is a
fact `{root, base, children, strategy}` stored in git notes. The facts are written by
`git squash-tree add-metadata`. `git squash-tree init` installs four hook scripts. Two of them invoke
add-metadata: post-rewrite after a rebase and post-merge after a squash merge. The pre-rebase script
only snapshots the commits being rebased into two session files that post-rewrite reads back. The
prepare-commit-msg script is left out. This project models the decision logic around those commands:

- `main`'s dispatch on the first argument, `init`'s choice between global and per-repository
  installation, and `show`'s resolution of the commit to show (module `Cli`);
- the add-metadata recorder: required flags, the first-write-wins check, and normalising and resolving
  the comma-separated child list. It writes only when every ref resolves. It is modelled as a
  `NotesStore` class whose `notes` map is the store (module `Metadata`);
- the rules of the pre-rebase, post-rewrite and post-merge scripts. Each rule is modelled as a function
  of the script's parameters, the marker files it finds and what git answers. Its result is the session
  it snapshots or the add-metadata invocations it issues. The post-rewrite loops are methods (module `Hooks`);
- the upward walk to the repository root and the trim/skip/resolve loop over refs
  (module `Repo`, internal/repo/repo.go);
- the string operations all of these rely on: Go's `strings.TrimSpace` and `strings.Split`, the
  bash comma join `IFS=,; echo "${A[*]}"` (`Text.Join`, the inverse of `Split`), and the bash pipeline
  that turns `git rev-list` output into a comma list (module `Text`);
- how a hook's invocation is read by the recorder (module `Lifecycle`).

External behaviour is passed in as function values:
- `Vcs.Git` stands for `git rev-parse [--short]`, `git merge-base [--is-ancestor]` and `git rev-list`.
- `Repo.Workspace` holds the absolute start path and the test "`<path>/.git` is a directory".

A path is the sequence of its components. The parent of a path drops its last component, and the root
`[]` is its own parent.

`findGitRepo` in cmd/git-squash-tree/main.go is a copy of `FindGitRepo` in internal/repo/repo.go, so
both are modelled by `Repo.FindGitRepo`. The child loop in `runAddMetadata` is the same loop as
`ResolveRefs`. It trims each entry, skips empty ones, resolves the rest in order, stops at the first
failure and rejects an empty result. The model therefore calls `Repo.ResolveRefs` and maps its two
errors to "invalid child" and "at least one child required".

Where the code departs from the evident purpose of the tool, the model follows the code:
- The post-rewrite session branch keeps the recorded commits that are unresolvable or that ARE
  ancestors of the new commit. The commits a squash folds are among the ones that are NOT ancestors
  of it (see Findings).
- The session's commits come from `git rev-list` without `--reverse`, so its children are newest first,
  not in the order they were committed.
- The post-rewrite script exits at once unless its first argument is `rebase` or `.git/rebase-merge` or
  `.git/rebase-apply` is a regular file. So an amend never reaches the fallback branch.
- The strategy is stored as given, with no check that it is `auto` or `manual`. Distinct children and a
  root outside its own children are not enforced either.
- The existence check reads the root flag as given (`HasMetadata(*root)`), while the write is keyed
  by the short hash.

## Model

| member | source | states |
|---|---|---|
| Cli.Dispatch | cmd/git-squash-tree/main.go:15-32 | fewer than two arguments give usage with exit status 1; `help`, `-h`, `--help` give usage with status 0; `init` and `add-metadata` get the remaining arguments; every other first argument, and only those, is the commit to show |
| Cli.Init | cmd/git-squash-tree/main.go:129-158 | the global installation is chosen if and only if some argument is `--global`; otherwise the hooks go to `<repo>/.git/hooks` of the repository found upward, or init fails with the walk's error |
| Cli.ShowTreeTarget | cmd/git-squash-tree/main.go:43-58 | showing succeeds exactly when a repository is found and the ref resolves, and then shows its short hash; otherwise the walk's error or the unresolved ref |
| Metadata.AddMetadataOutcome | cmd/git-squash-tree/main.go:68-127 | missing flags are rejected if and only if root, base or children is empty; with the flags present, a failed walk is reported as "not a git repository" with the walk's error; it is a no-op exactly when the raw root is already a key; a fact is written if and only if every check passes and every ref resolves; the written fact holds the short root and base, one resolved child per split, trimmed, non-empty entry in input order, and the strategy or `auto` |
| Metadata.NotesStore.AddMetadata | cmd/git-squash-tree/main.go:68-127 | the run's outcome is the recorder's decision; the store changes only by that decision's write; the store stays well keyed |
| Metadata.FailureCause | cmd/git-squash-tree/main.go:94-125 | with the flags present, the repository found and the root new: an unresolvable root is reported as an invalid root; a resolvable root with an unresolvable base as an invalid base; with both resolved, an empty child list as "at least one child required", the first unresolvable child entry as an invalid child naming that entry, and a refused write after every ref resolved as a write failure; a reported invalid child is always an unresolvable entry of the list |
| Metadata.ExitCodeOfRun | cmd/git-squash-tree/main.go:74-126 | the exit status is 0 or 1, and 0 exactly when the flags are present, the repository is found and either the raw root is already recorded or root, base and every child resolve, there is at least one child and the write is accepted |
| Metadata.ChildRefsMembers | cmd/git-squash-tree/main.go:104-110 | `ChildRefs`, the children as runAddMetadata resolves them: a ref is in the list if and only if it is the non-empty trimmed form of some piece of the flag between commas |
| Metadata.StoreAfterWellKeyed | cmd/git-squash-tree/main.go:118-126 | every outcome but a write leaves the store unchanged; a write adds one key, the canonical root, and keeps every fact filed under its own root with at least one child |
| Metadata.RecordTwiceIdempotent | cmd/git-squash-tree/main.go:89-126 | running the same add-metadata twice leaves the store as the first run left it |
| Metadata.RecordedIsDetermined | cmd/git-squash-tree/main.go:94-123 | a written fact depends only on the flags and git, not on the rest of the store |
| Metadata.FirstWriteWins | cmd/git-squash-tree/main.go:89-92 | after a fact is written for a root flag already in short form (never the case for a hook, which passes full hashes), every later run with that root, whatever its other flags, is a no-op or a flag error and leaves the store unchanged |
| Metadata.RawRootCheckCanReplace | cmd/git-squash-tree/main.go:90-123 | because the check reads the raw flag and the write the short hash, a root spelled differently from its short hash passes the check even though a fact is filed under that hash; with the write taken to overwrite, it replaces that fact |
| Hooks.PreRebaseSnapshot | cmd/git-squash-tree/main.go:202-213 | a snapshot is taken if and only if `$2` is non-empty; it records `$2` as base and `git rev-list $2..$3`, or `$2..HEAD` without `$3` |
| Hooks.RebaseOfCurrentBranchTakesNoSnapshot | cmd/git-squash-tree/main.go:203-210 | called as git calls it when rebasing the current branch (upstream only), the script takes no snapshot while the intended one does |
| Hooks.PreRebaseSnapshotIntended | cmd/git-squash-tree/main.go:203-210 | with the upstream in `$1` and the branch in `$2`: a snapshot exactly when `$1` is non-empty, of `$1..$2` or `$1..HEAD` |
| Hooks.FilesAfterSnapshot | cmd/git-squash-tree/main.go:206-210 | after a snapshot both session files are present and read back as exactly that snapshot; without one the files are as they were |
| Hooks.Squashed | cmd/git-squash-tree/main.go:225-231 | the keep rule as written: a recorded commit is kept if and only if it is in the session and is unresolvable or an ancestor of the new commit |
| Hooks.SessionRequest | cmd/git-squash-tree/main.go:223-235 | a pair leads to an invocation if and only if old differs from new, new is non-empty and more than one recorded commit is kept; the root is new, the base is the session base, and the children split back into the kept commits |
| Hooks.PostRewriteWithSession | cmd/git-squash-tree/main.go:219-237 | its nested loops issue exactly the per-pair invocations, in pair order |
| Hooks.SessionRequestsSpec | cmd/git-squash-tree/main.go:222-237 | an invocation is issued if and only if some rewritten pair keeps more than one commit, and it carries that pair's new commit, the session base and the kept commits joined by commas |
| Hooks.FilterMembers | cmd/git-squash-tree/main.go:225-231 | a recorded commit is kept if and only if it is in the session and is unresolvable or an ancestor of new |
| Hooks.FilterAppend | cmd/git-squash-tree/main.go:225-231 | the kept commits keep the session's order |
| Hooks.CollectMembers | cmd/git-squash-tree/main.go:222-237 | an invocation appears if and only if some input pair calls for it |
| Hooks.SquashOfAllRecordsNothing | cmd/git-squash-tree/main.go:225-232 | squashing every recorded commit into one new commit keeps none of them and records nothing, while the intended rule requests exactly that commit, on the session base, with every recorded commit joined in session order |
| Hooks.Subsumed | cmd/git-squash-tree/main.go:225-231 | the intended rule: a recorded commit is subsumed if and only if it is unresolvable or not an ancestor of new |
| Hooks.SubsumedRequest | cmd/git-squash-tree/main.go:232-234 | the intended invocation: exactly when more than one commit is subsumed, with those commits as children |
| Hooks.PostRewrite | cmd/git-squash-tree/main.go:215-253 | outside a rebase nothing happens; with both session files the session branch runs and the files are removed; otherwise the fallback runs and the files stay |
| Hooks.BaseOrParent | cmd/git-squash-tree/main.go:242 | the base is the merge-base when there is one, else the parent when there is one, else empty; an empty base means both failed or one of them printed nothing |
| Hooks.RangeListJoins | cmd/git-squash-tree/main.go:244-245 | `RangeList`, that is `rev-list --reverse … \| tr '\n' ','` with the trailing comma stripped is the range joined by commas, oldest first, and splits back into it |
| Hooks.FallbackRequest | cmd/git-squash-tree/main.go:241-247 | an invocation is issued only for a rewritten pair, with the new commit as root, a non-empty base from merge-base or the parent, and a child list of more than one line |
| Hooks.FallbackRequestSpec | cmd/git-squash-tree/main.go:240-251 | a pair leads to an invocation if and only if it is rewritten, its base is known and base..old holds more than one commit; the children are that range, oldest first |
| Hooks.PostRewriteFallback | cmd/git-squash-tree/main.go:240-251 | its loop issues exactly the per-pair fallback invocations, in pair order |
| Hooks.PostMerge | cmd/git-squash-tree/main.go:256-275 | the marker is removed if and only if it was there; an invocation is issued only when both head files have content, with HEAD as root, a non-empty base from merge-base or HEAD's parent, and non-empty children |
| Hooks.PostMergeSpec | cmd/git-squash-tree/main.go:256-275 | the marker is removed if and only if it was there; an invocation is issued if and only if the marker is there, both heads have content, the base is known and base..MERGE_HEAD holds at least one commit; the root is HEAD and the children are that range, oldest first |
| Repo.Parent | internal/repo/repo.go:21-24 | `filepath.Dir`: a path is its own parent if and only if it is the root; otherwise the parent drops the last component |
| Repo.NearestGitRoot | cmd/git-squash-tree/main.go:287-304 | the walk stops at an ancestor-or-self holding a `.git` directory with none deeper on the way up, and finds nothing if and only if no ancestor-or-self holds one |
| Repo.FindGitRepo | internal/repo/repo.go:11-28 | the loop, which ends because each step shortens the path, returns what the walk specifies, or the Abs error |
| Repo.FindGitRepoNearest | internal/repo/repo.go:16-27 | `Walk`, the result FindGitRepo specifies: the walk succeeds if and only if some prefix of the start path holds `.git`; the path returned is the deepest such prefix; "not a git repository" if and only if none does |
| Repo.CleanRefs | internal/repo/repo.go:42-46 | no more entries than refs and no empty entry |
| Repo.CleanRefsAppend | internal/repo/repo.go:42-46 | trimming and skipping keep input order |
| Repo.CleanRefsMembers | internal/repo/repo.go:43-46 | an entry is resolved if and only if it is the non-empty trimmed form of some ref |
| Repo.ResolveAll | internal/repo/repo.go:47-51 | succeeds if and only if every entry resolves, and then gives one hash per entry in order; otherwise the first entry that does not resolve |
| Repo.ResolvedRefs | internal/repo/repo.go:40-57 | on success one hash per non-empty trimmed ref in order, between 1 and `len(refs)` of them; `at least one ref required` if and only if nothing is left after trimming; an invalid-ref error, with no partial list, if and only if some entry fails, naming the first that does |
| Repo.ResolveRefs | internal/repo/repo.go:40-57 | its loop with early return gives exactly that result |
| Text.TrimSpaceSpec | internal/repo/repo.go:43 | `TrimSpace`: the trimmed ref is an infix of the ref, neither starting nor ending in white space, with only white space cut off |
| Text.TrimSpaceIdempotent | internal/repo/repo.go:43 | trimming twice is trimming once |
| Text.Split | cmd/git-squash-tree/main.go:104 | at least one piece, none containing a comma |
| Text.JoinSplit | cmd/git-squash-tree/main.go:104 | `Join` undoes `Split`: joining the pieces with commas gives back the string |
| Text.SplitJoin | cmd/git-squash-tree/main.go:233 | a non-empty list of comma-free entries, joined as the hooks join it, splits back into the list |
| Text.PipelineJoins | cmd/git-squash-tree/main.go:244-245 | `tr '\n' ','` and `${X%,}` on lines of names give the names joined by commas |
| Text.JoinCommas | cmd/git-squash-tree/main.go:233 | `Join` of a non-empty list of names holds one comma fewer than there are names, and no newline |
| Text.LineCountJoin | cmd/git-squash-tree/main.go:246 | `echo "$X" \| tr ',' '\n' \| wc -l` counts the names in a non-empty comma list |
| Lifecycle.ChildRefsOfJoin | cmd/git-squash-tree/main.go:104-110 | a hook's children flag built from names is read back by add-metadata as exactly those names, in order |
| Lifecycle.RequestRecorded | cmd/git-squash-tree/main.go:106-123 | an invocation with a non-empty comma list of names, a new root and resolvable refs is written with those names resolved in order and strategy `auto` |
| Lifecycle.SessionRequestRecorded | cmd/git-squash-tree/main.go:232-234 | what the session branch issues is written with the kept commits resolved, in session order |
| Lifecycle.FallbackRequestRecorded | cmd/git-squash-tree/main.go:244-247 | what the fallback issues is written with the range base..old resolved, oldest first, at least two children |
| Lifecycle.PostMergeRequestRecorded | cmd/git-squash-tree/main.go:266-269 | what post-merge issues is written under HEAD with the merged range resolved, oldest first, at least one child |
| Lifecycle.UnresolvableChildBlocksRecording | cmd/git-squash-tree/main.go:111-115 | an invocation whose comma list of names holds one that does not resolve records nothing and leaves the store unchanged |
| Lifecycle.SessionWithUnresolvableCommitRecordsNothing | cmd/git-squash-tree/main.go:225-234 | when `rev-parse` and `rev-parse --short` agree, a snapshot commit that no longer resolves is kept by both keep rules, and the invocation holding it records nothing |
| Lifecycle.IntendedSquashRebaseRecordsSnapshot | cmd/git-squash-tree/main.go:225-234 | with both corrections, a rebase that squashes every snapshot commit records all of them, resolved, in snapshot order |

## Left out

- The tree builder, the visualizer and the notes reader and writer (internal/tree, internal/git) are not part of this model. Showing a tree is modelled only up to the short hash it is built for.
- Metadata.RawRootCheckCanReplace: the writer in internal/git is not part of this model, and nothing shown says what it does with an existing note, so the write is taken to overwrite one. With the existence check on the raw root flag, that leaves no first-write-wins for any root given as a full hash, which every hook invocation passes (`$new_sha`, `$(git rev-parse HEAD)`). A later firing with other children then replaces the first fact. `Metadata.FirstWriteWins` holds only for roots given in their short form.
- The `git notes` store is the map `NotesStore.notes`. `HasMetadata` is a key lookup of the raw root flag. Whether the real reader resolves that ref first is not modelled.
- A write the store rejects is the boolean `storeAccepts`.
- Flag parsing by Go's `flag` package, usage and error text on standard error, and `os.Exit` are left out. Outcomes are values; a failed add-metadata has `ExitCode` 1. The flags arrive parsed, with `strategy` None when it was not given.
- Every git subprocess is a field of `Vcs.Git`. A command that fails is taken to print nothing, so `git rev-parse` echoing an unresolvable argument to stdout is not modelled. The resolver is fixed per repository rather than taking the repository path.
- `git rev-parse` and `git rev-parse --short` are independent fields of `Vcs.Git`. That they succeed on the same refs (`Git.ResolvesAlike`) is assumed only where a lemma says so.
- `filepath.Abs` is `Workspace.start` (None when it fails). `os.Stat(...).IsDir()` is `Workspace.gitDirAt`. Path cleaning and symbolic links are not modelled.
- Hook installation (the body of `runInit` after the choice, `runInitGlobal`, `writeHooks`, `hookScripts`, `git config --global core.hooksPath`): file-system plumbing.
- The prepare-commit-msg hook: it only touches marker files nothing in the core reads back.
- The post-merge markers `.git/SQUASH_HEAD` and `.git/MERGE_HEAD` are inputs of `Hooks.PostMerge`. Nothing in the tool writes `.git/SQUASH_HEAD` (prepare-commit-msg touches `.git/SQUASH_IN_PROGRESS`), so whether post-merge ever gets past its first test depends on git, which is not part of this model.
- Marker and session files are optional values. Bash word-splitting of SQUASH_PRE_REBASE_COMMITS is taken to read back the lines written, which it does for object names. Failures writing these files (`|| true`) are not modelled.
- `while read old new extra` is taken as given pairs, with read's own field splitting not modelled.
- The race between `HasMetadata` and `WriteMetadata` across processes: concurrency.
- `Text.TrimSpace` works on Unicode characters. Go's works on UTF-8 bytes; invalid UTF-8 is not modelled.

## Findings

| source | as written | input that shows it | evidently intended | confidence | as-written member | corrected member |
|---|---|---|---|---|---|---|
| cmd/git-squash-tree/main.go:226-230 | a recorded commit is kept when it does not resolve or when it resolves and IS an ancestor of the new commit | session commits c1, c2, c3 all squashed into N: all still resolve, none is an ancestor of N, so none is kept and nothing is recorded | keep the commits that do not resolve or are NOT ancestors of N, so c1, c2, c3 are recorded | not executed; high | Hooks.Squashed, shown by Hooks.SquashOfAllRecordsNothing | Hooks.Subsumed and Hooks.SubsumedRequest, used by Lifecycle.IntendedSquashRebaseRecordsSnapshot |
| cmd/git-squash-tree/main.go:203-210 | the upstream is read from `$2` and the tip from `$3` | `git rebase -i HEAD~3` runs pre-rebase with only `$1` = `HEAD~3` (git passes the upstream first and the branch second), so no snapshot is taken | upstream from `$1`, tip from `$2` or HEAD | not executed; medium (rests on git's hook calling convention) | Hooks.PreRebaseSnapshot, shown by Hooks.RebaseOfCurrentBranchTakesNoSnapshot | Hooks.PreRebaseSnapshotIntended, used by Lifecycle.IntendedSquashRebaseRecordsSnapshot |

`Hooks.PostRewriteWithSession` and `Hooks.PreRebaseSnapshot` keep the behaviour as written, because
they model the scripts. The corrected definitions sit beside them: `Lifecycle` uses them to state the
end-to-end behaviour the hooks exist for, where a squash records the commits it folds. The corrected
keep rule is exact only when every snapshot commit is folded into the one new commit. Every original
that a rebase rewrites is a non-ancestor of every new commit. So in a rebase that picks c1, squashes
c2 into it and picks c3, the pair c3→c3' also collects c1, c2 and c3, and the pair for c1 and c2
also collects c3. `Lifecycle.IntendedSquashRebaseRecordsSnapshot` proves only the fully folded case.
