# stacked-branches in Dafny

A model of the core of *stacked-branches*, a small tool that prints the
stack of branches the current branch sits on, from the branch closest to the
working tip down to the branch closest to trunk. The tool asks git four kinds
of question and combines the answers:

- **Parsers and classifiers** (`git/git.go`): `for-each-ref` output becomes
  branch names, `log` output becomes commits, `symbolic-ref HEAD` output
  becomes the current branch, and the exit status of
  `merge-base --is-ancestor` becomes true, false or an error. `MergeBase`
  joins the merge-base hash with the "is it on trunk" check. The subprocess
  is replaced by what it hands back: its output (or the error `Output()`
  reports) or its exit status.
- **The older parsers** (`git.go`), which keep `refs/heads/` and do not
  validate or split log lines.
- **Merge-base filtering** (`getMergeBases`): every recent branch whose merge
  base with the current branch is already on trunk is dropped, and the rest
  are mapped to their merge base. Any failing query fails the whole call.
- **Ancestry sort** (`sortRefs`): the surviving branches are sorted with a
  comparator that asks git whether one is an ancestor of the other. The first
  error is sticky. `run` then reverses the result, so the most-descendant
  branch comes first.

Modules, one per source file or component:

| file | module | models |
|---|---|---|
| outcomes.dfy | `Outcomes` | Go's `(value, error)` returns as `Result`, and the stop-at-first-error loop `Collect` |
| text.dfy | `Text` | `strings.TrimSpace` and `strings.Split` with a one-character separator, plus `Join`, the printing side the round-trip lemmas use (the program itself never joins) |
| git.dfy | `Git` | `git/git.go` |
| git_client.dfy | `GitClient` | the `git.Client` that `main.go` calls, as an oracle, and how the `git/git.go` queries answer it |
| legacy_git.dfy | `LegacyGit` | `git.go` |
| resolver.dfy | `Resolver` | `getMergeBases` |
| sorter.dfy | `Sorter` | `sortRefs` and its comparator |
| stack.dfy | `Stack` | `getCandidateStack` and `run` |

To `getMergeBases` and `sortRefs`, the `git.Client` is an oracle. A
`GitClient.Client` holds two arbitrary functions: `mergeBase(a, b)` and
`isAncestor(a, b)`, each returning a result or an error. Everything proved
about those two functions holds for any answers git may give. The repository
itself is a `Repo`, also two arbitrary functions: the result of
`git merge-base a b`, and the exit status of `git merge-base --is-ancestor
a b`. `GitClient.Connect` builds the client `main.go` uses from a `Repo` and
the trunk name, through the `git/git.go` functions. The whole program,
`Stack.Run`, takes three more inputs: the value of `GIT_MAIN` (an `Option`),
the result of `symbolic-ref HEAD` and the result of `for-each-ref`.

Library sort. `slices.SortFunc` runs an insertion sort on slices of at most
twelve elements. `Sorter.Insert` and `Sorter.SortRefs` are that insertion
sort. Each new element moves left while `cmp(new, left neighbour) < 0`. For
up to twelve refs, the model asks git the same questions as the program, in
the same order.

Three behaviours of the code that the model keeps:

- The comparator compares the refs themselves (`main.go:74`), not their merge
  bases. `sortRefs` makes no second round of merge-base queries.
- `git/git.go` checks the merge base against the constant `origin/main`
  (`git/git.go:35`). The source of `git.Client` is not part of this model.
  From `main.go:104`, which builds it as `git.Client{MainBranch: mainBranch}`,
  the model infers that the client checks against that field instead. The
  model therefore takes the trunk as a parameter.
- An empty `for-each-ref` listing is not an empty stack. Its one (empty) line
  has no tab, and `parts[1]` panics (`Git.RecentHeadsOfNothing`). A panic is
  not an error value: nothing in `main.go` recovers it, so it reaches the top
  without the `fmt.Errorf` context that `getCandidateStack` and `run` add to
  errors. The model gives it as `IndexOutOfRange(line)`, which
  `Stack.CandidateStack` and `Stack.Run` pass on unwrapped
  (`Git.RecentHeadsPanics`).

## Model

| member | source | states |
|---|---|---|
| Outcomes.Collect | git/git.go:19-26 | The per-line loop succeeds exactly when every line does. It then yields each line's value, in order and one per line. Otherwise it returns the error of the first failing line. |
| Text.TrimSpace | git/git.go:17 | `strings.TrimSpace`: the result is a slice of the input with only white space before and after it, and it neither starts nor ends with white space. All-white-space input gives the empty string. |
| Text.Split | git/git.go:17 | `strings.Split` with a one-character separator: one more piece than there are separators, none containing the separator. |
| Text.JoinSplit | git/git.go:17 | Joining the pieces of `strings.Split` with the separator restores the string, so no character is lost or added. |
| Text.SplitJoin | git/git.go:17 | Split of a join of separator-free pieces returns those pieces. The split is therefore the unique separator-free decomposition. |
| Text.TrimSpaceIdempotent | git/git.go:17 | Trimming an already trimmed output changes nothing. |
| Git.RefHeadMatch | git/git.go:10 | `^refs/heads/(.+)$` matches exactly when the text starts with `refs/heads/` and the rest is non-empty with no newline. The submatch is that rest, and prefixing it gives back the text. |
| Git.RefHeadMatchName | git/git.go:10 | Every non-empty, newline-free branch name is recovered from `refs/heads/<name>`. |
| Git.HeadName | git/git.go:20-25 | A line succeeds exactly when it has a tab and its second field is `refs/heads/X`, with X non-empty and newline-free. The result is then X. A line with no tab fails with the index panic. Any other second field fails with "unexpected ref name" naming that field. |
| Git.GetRecentHeads | git/git.go:12-28 | A command error is returned unchanged. Otherwise the parse gives one name per line of the trimmed output, in order, each line's own name. It fails exactly when some line is bad, with the first bad line's error. |
| Git.RecentHeadsRoundTrip | git/git.go:13-27 | Parsing the listing git prints for a non-empty list of well-formed branches returns their names, in order. |
| Git.RecentHeadsOfNothing | git/git.go:17-21 | Output that is empty or all white space is not an empty list. Its one empty line has no second field, so the parse panics. |
| Git.ParseLogLine | git/git.go:49-53 | A line parses exactly when it holds exactly one tab. The commit then prints back as exactly that line, with no tab in hash or subject. Any other line fails with "unexpected log line" naming it. |
| Git.ParseLogLineOf | git/git.go:49-53 | A tab-free commit's `%H<TAB>%s` line parses back to that commit. |
| Git.GetLogs | git/git.go:37-57 | A command error is returned unchanged. Output that trims to nothing gives an empty list, not an error. Otherwise the parse succeeds exactly when every line of the trimmed output has exactly one tab. It then gives one commit per line, in order, each the parse of its line, and the commits print back as the trimmed output. A failure is the error of the first bad line. |
| Git.LogsRoundTrip | git/git.go:38-56 | For a non-empty list of commits with no tab or newline in any field, and no white space at the two ends of the output, parsing the `%H<TAB>%s` output returns the same list. |
| Git.IsAncestor | git/git.go:59-70 | Exit status 0 means true and 1 means false, without error. Every other exit status is an error carrying the exit code. A command that could not start fails with the reason it gave. |
| Git.MergeBase | git/git.go:72-83 | A failed `merge-base` gives an empty hash, false and its error. Otherwise the hash is the trimmed output. `onMain` holds exactly when the ancestry check against trunk exits 0. When that check errors, its error comes back with the hash and `onMain` false. |
| Git.CurrentBranch | git/git.go:85-95 | A result X means the trimmed output is `refs/heads/X`, with X non-empty and newline-free. Any other output fails with "unexpected ref name" carrying the untrimmed output. Command errors pass through. |
| Git.CurrentBranchRoundTrip | git/git.go:86-94 | On branch X, the line `refs/heads/X` printed by `symbolic-ref HEAD` parses back to X. |
| GitClient.RepoMergeBase | git/git.go:72-83 | The client's merge-base answer fails with the command's error when `merge-base` fails, and with the ancestry check's error when that check fails. It succeeds exactly when both succeed. A success carries the trimmed hash, and `onMain` holds exactly when the ancestry check against trunk exits 0. |
| LegacyGit.RefField | git.go:16-17 | A line's second tab-separated field is returned verbatim when the line has a tab. Otherwise the unguarded `parts[1]` fails. |
| LegacyGit.GetRecentHeads | git.go:8-20 | Gives one verbatim second field per line of the trimmed output, in order, with `refs/heads/` kept. Fails exactly when some line has no tab, with the index panic of the first such line. |
| LegacyGit.RecentHeadsAgree | git.go:13-19 | Wherever the validating parser of `git/git.go` accepts a listing, this one also accepts it. It returns the same branches, each with `refs/heads/` in front. |
| LegacyGit.GetLogs | git.go:22-29 | Returns the trimmed output's lines unchanged. They are newline-free and join back to the trimmed output. Empty output gives one empty line. |
| LegacyGit.EmptyLogsDiffer | git.go:27-28 | On empty output this parser returns `[""]`, while the parser of `git/git.go` returns no commits. |
| Resolver.MergeBases | main.go:14-62 | The result is an outcome the concurrent code can produce. With no failing query, the keys are exactly the candidates whose merge base is off trunk, each mapped to its merge-base hash. With a failing query, the result is the error of a failing query and no map. It succeeds exactly when no query fails. |
| Resolver.SuccessDetermined | main.go:51-61 | Only the choice of error is left open. A successful outcome is the only possible outcome, whatever the workers' timing. |
| Resolver.OneFailureFails | main.go:36-38 | One failing merge-base query makes every possible outcome a failure, with no partial map. |
| Sorter.Compare | main.go:66-79 | Once an error is kept, the comparator returns 0 without a query. Equal refs also give 0 without a query. Otherwise it asks one question: -1 exactly when git says a is an ancestor of b, 1 otherwise. A failing question returns 1 and keeps its error. |
| Sorter.Insert | main.go:66-79 | One insertion step adds exactly the new element to the arrangement. With an error already kept, it asks nothing and leaves the element at the end. |
| Sorter.SortRefs | main.go:64-81 | The sorted slice is a rearrangement of the input, even when the sort stops early on an error. |
| Sorter.SortRefsSticky | main.go:65-80 | No ref is compared with itself, and no question is asked after a failing one. An error is returned exactly when the last question failed, and it is that failure's error. |
| Sorter.SortRefsAsks | main.go:64-81 | The comparator is only ever called on two of the refs being sorted, so every question asked is about two of them. |
| Sorter.SortRefsAscending | main.go:66-79 | When git's answers form a strict chain on distinct refs, the sort returns no error and every ref precedes every ref it is an ancestor of. |
| Sorter.AscendingUnique | main.go:92-113 | Along a chain only one ascending arrangement exists, so the map's iteration order does not affect the sorted result. |
| Stack.TrunkName | main.go:100-103 | The trunk is the value of `GIT_MAIN` whenever the variable is set, even to the empty string, and `origin/main` otherwise. |
| Stack.KeysOf | main.go:92-96 | Every key of the merge-base map appears exactly once, so the length equals the map's size, and only the keys are kept. |
| Stack.CandidateStack | main.go:83-97 | A listing error is returned wrapped with "error getting recent heads". A listing line without a tab panics, and the panic is not wrapped. It succeeds exactly when every recent branch's merge-base query succeeds. It then returns each branch whose merge base is off trunk, once. Otherwise it returns a failing query's error, wrapped. |
| Stack.Reverse | main.go:116 | The reversed slice holds the element from the mirrored position at each index. |
| Stack.ReverseReverse | main.go:116 | Reversing twice gives back the slice. |
| Stack.ReverseAscending | main.go:116 | Reversing an ascending arrangement gives a descending one: the most-descendant ref comes first, and every other ref is its ancestor. |
| Stack.DisplayOrder | main.go:113-116 | A sort that succeeded, once reversed, holds the same refs, still distinct. They are most-descendant first whenever git's answers form a chain on them. |
| Stack.Run | main.go:99-121 | A current-branch or listing error aborts the run with the program's error wrapping. A listing panic aborts it unwrapped. A failing merge-base query aborts it with that query's error inside both contexts. Once every merge-base query has succeeded, the run succeeds whenever git's answers form a chain on the branches kept. Otherwise any failure is a failing ancestry query between two distinct kept branches, wrapped with "error sorting". A successful run prints each recent branch whose merge base with the current branch is off trunk, once. The branches are most-descendant first along a chain. |

## Left out

- Subprocesses: `exec.Command`, its arguments and exit-status plumbing are replaced by the output string, the command error or the exit status they would produce.
- `for-each-ref --count=50`: the cap of fifty branches is enforced by git, not by the parser, so it is not modelled.
- The worker pool: goroutines, channels, the `WaitGroup` and the goroutines left blocked after an error are not modelled. `getMergeBases` is a sequential fold. `Resolver.Permitted` states every outcome the concurrent version may produce, with the choice of reported error left open.
- Go map iteration order: `Stack.KeysOf` picks keys in an unspecified order.
- `slices.SortFunc` on more than twelve elements (pattern-defeating quicksort) is not modelled. The insertion sort it uses on short slices stands in for it. Ordering is stated only for oracles that form a chain, since incomparable refs make the comparator inconsistent.
- Reading the `GIT_MAIN` environment variable: its value is a parameter. Printing the stack and `panic` in `main` are left out.
- Go's general regular-expression engine: only the one pattern `^refs/heads/(.+)$` is modelled, as a prefix check plus a non-empty, newline-free rest.
- Invalid UTF-8 in git's output: strings are sequences of Unicode scalar values, so Go's byte-level decoding in `TrimSpace` and `regexp` is not modelled.
- Stack.Run: when git's answers do not form a chain on the kept branches, it does not state whether the sort fails or which failing query it reports. The refs reach the sort in map order, which is not determined, so the questions asked are not determined either. `Sorter.SortRefsSticky` states the rule for any given order.
- Go's returned `false` alongside an `IsAncestor` error is not a separate value. `Git.IsAncestor` returns a failure, and `Sorter.Compare` treats a failure like "false", as the source does.
