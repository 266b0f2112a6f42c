# GitLab contributor aggregation, modelled in Dafny

This project models the contributor aggregation engine of the GitLab
contributor counter (`src/lib/gitlab/gitlab-contributors.ts`, with the record
shapes of `src/lib/gitlab/types.ts`), and proves properties of that model.

A run works as follows:

- It resolves a target into a list of projects. The target is a single
  project, a list of group search terms, or everything the credential can see.
- It walks every commit of each project since a start date.
- It merges authors into a contributor map keyed by display name. The map
  holds the email, a contribution count and the list of repository labels
  (`"<path>(<visibility>)"`) the author committed to.
- A second person with the same name but a different email goes under the
  key `"<name>(duplicate)"`.
- Bot and GitHub no-reply addresses are skipped.
- For every counted commit, it fetches the diff and tallies the extension
  token of every touched path, per author email.
- At the end it builds the breakdown table (the author column, then one
  column per extension in discovery order) and returns the contributor map
  sorted by key.

Modules, one per file:

| file | module | what it holds |
|---|---|---|
| `common.dfy` | `Common` | `Option`, the outcome of a fetch, JavaScript truthiness and string rendering, `includes`, insertion-ordered sets as sequences |
| `shapes.dfy` | `Shapes` | the records of `types.ts` and the contributor record |
| `extensions.dfy` | `Extensions` | `split`/`pop`, and the extension token of a path |
| `identity.dfy` | `Identity` | `changeDuplicateAuthorNames` |
| `fetcher.dfy` | `Fetcher` | the GitLab API as a fixed oracle: every request the core makes, with its outcome |
| `aggregation.dfy` | `Aggregation` | the aggregates and the pure specification of the commit loop, the project loop and the project pass, with their lemmas |
| `engine.dfy` | `Engine` | class `Aggregator`: the mutable maps and set, updated in place by methods proved equal to the specification |
| `report.dfy` | `Report` | the default `Array.prototype.sort` order on entries, the sorted result, and the breakdown table |
| `resolution.dfy` | `Resolution` | `findGroupPaths` and `fetchGitlabProjects` |
| `driver.dfy` | `Driver` | `fetchGitlabContributors`: its three modes, the group-list rewrite in place, the project loop and the final sort |

How the model represents the source:

- **Shared arrays.** JavaScript shares `reposContributedTo` arrays between
  map entries. The first commit of a clashing author reuses the existing
  entry's array and pushes onto it in place. The model makes this sharing
  explicit: every label list lives in an arena, `repoLists: seq<seq<string>>`,
  and a `Contributor` holds an index into it. A push updates the arena at
  that index. Two entries that share an array hold the same index.
- **Network.** Every paginated fetch is either `Fetched(items)` or `Failed`
  (the request threw). The outcome is read from the `Network` value, keyed
  by the request.
- **URL encoding.** `encodeURIComponent` is the parameter `encode`.
- **Insertion order.** The JavaScript `Set` of extensions and the key order
  of `filesTouched` are sequences without repeats. The contributor map is a
  Dafny `map`. Its insertion order cannot show in the result, because the
  result is sorted under a strict total order (`SortedKeysUnique`).

Where the code and its written description disagree, the model follows the code:

- A single project given by path has no visibility field. Its label is
  therefore `"<path>(undefined)"`, not `"<path>(private)"`.
- The extension token of a dotless path is the whole path, so
  `"a/b/README"` gives `"a/b/README"`. `split('.').pop()` never returns
  `undefined`, so the `/`-segment and whole-path fallbacks (lines 211-218)
  are dead.
- A commit whose author name clashes with an existing entry gets a new
  `"(duplicate)"` entry. That entry starts from the original entry's count
  plus one and shares the original's label array. When the commit's project
  is new to that array, its label is pushed onto the original's list as
  well. So the original entry is not untouched (`MarkedEntryMirrorsOriginal`).
- Not every failure is contained. The current-user request (line 257) and
  `user[0].id` (line 272) sit outside the `try` of `fetchGitlabProjects`.
  Their failure reaches the driver's outer `catch`. The run then scans no
  project, writes no table and returns an empty map
  (`ResolutionThrowsIff`, `UserFailureEndsRun`). The current-user request is
  made in every mode except single-project mode.
- The `try` in `fetchGitlabProjects` wraps the whole listing loop, so the
  first failed listing drops every later listing (`FailedListingEndsCollection`).
- `groups: []` is truthy. It still selects group mode, in which only the
  user's own projects are listed (`NoMatchedGroupScansOwnProjects`).
- The `Commits` type names the commit identifier `sha`, but the code reads
  `commit.id` (line 203). The model's `Commit` has `id`.

## Model

| member | source | states |
|---|---|---|
| Common.ContainsIff | src/lib/gitlab/gitlab-contributors.ts:264 | `includes` holds exactly when the part occurs at some position of the string |
| Common.AddAllKeepsOrder | src/lib/gitlab/gitlab-contributors.ts:220 | adding tokens to the insertion-ordered extension set keeps the old order as a prefix, holds exactly the old members and the new tokens, and keeps members distinct |
| Common.DistinctOccursOnce | src/lib/gitlab/gitlab-contributors.ts:172-183 | a list without repeats holds each of its members exactly once |
| Extensions.Split | src/lib/gitlab/gitlab-contributors.ts:210 | `split` on a one-character separator; it always yields at least one part (see `SplitJoin`) |
| Extensions.ExtensionToken | src/lib/gitlab/gitlab-contributors.ts:210 | `split('.').pop()`: the last part; characterised by `TokenIsLastDotFreeSuffix` and `TokenUnique` |
| Extensions.SplitJoin | src/lib/gitlab/gitlab-contributors.ts:210 | `split` then `join` on the same separator gives back the string, and no part contains the separator |
| Extensions.TokenIsLastDotFreeSuffix | src/lib/gitlab/gitlab-contributors.ts:210-218 | the token of a path is a suffix of it with no '.', preceded by a '.' whenever it is shorter than the path |
| Extensions.TokenUnique | src/lib/gitlab/gitlab-contributors.ts:210-218 | any dot-free suffix that is the whole path or follows a '.' is the token, so the characterisation above determines the token |
| Extensions.DotlessPathIsItsOwnToken | src/lib/gitlab/gitlab-contributors.ts:210-218 | a path without '.' is its own token, slashes included (the fallbacks are never reached) |
| Extensions.TokenExamples | src/lib/gitlab/gitlab-contributors.ts:210-218 | tokens of `src/app.ts`, `a/b/README`, `a.b/c`, `file.` and `Makefile` |
| Identity.DisplayKey | src/lib/gitlab/gitlab-contributors.ts:239-250 | the key is the name or the name with the duplicate marker, and a plain key already in the map belongs to the commit's email |
| Identity.ResolveDisplayKey | src/lib/gitlab/gitlab-contributors.ts:239-250 | the key is `name + "(duplicate)"` exactly when some existing key equals the name and holds a different email, and otherwise the name |
| Identity.OwnerKeepsPlainName | src/lib/gitlab/gitlab-contributors.ts:244-249 | the author who owns the name entry (same email) keeps the plain name |
| Identity.ClashGetsMarkedKey | src/lib/gitlab/gitlab-contributors.ts:244-246 | a different email under an existing name gets the marked key, distinct from the name |
| Aggregation.IsExcluded | src/lib/gitlab/gitlab-contributors.ts:190-193 | the commit is skipped when its email ends with `@users.noreply.github.com` or is `snyk-bot@snyk.io` |
| Aggregation.RepoLabel | src/lib/gitlab/gitlab-contributors.ts:153-155 | the label is the path (or else the id), then the visibility in parentheses: it ends with ')' and starts with the path when there is one |
| Aggregation.PriorCount | src/lib/gitlab/gitlab-contributors.ts:162-165 | the carried count: 0 for an unknown author, at least 1 for a known one when every stored count is positive |
| Aggregation.PriorList | src/lib/gitlab/gitlab-contributors.ts:168-171 | the carried array handle: the email entry's if present, else the name entry's |
| Aggregation.Pushed | src/lib/gitlab/gitlab-contributors.ts:168-183 | the arena after the in-place push onto the carried array; it keeps the number of arrays (see `PushedKeepsDistinct`, `WrittenEntry`) |
| Aggregation.Written | src/lib/gitlab/gitlab-contributors.ts:152-200 | the state once a counted commit's entry is written; label handles stay in range (see `WrittenEntry`, `WrittenKeepsValid`) |
| Aggregation.Touch | src/lib/gitlab/gitlab-contributors.ts:194-226 | counting one commit's tokens leaves the contributor map and the arena unchanged, keeps the old author order as a prefix and gives the author a row (see `DiffsCountedForAuthor`) |
| Aggregation.CommitStep | src/lib/gitlab/gitlab-contributors.ts:149-227 | one iteration of the commit loop; label handles stay in range (see `ExcludedCommitOnlyPushes`, `WrittenEntry`, `CommitStepKeepsValid`) |
| Aggregation.CommitsStep | src/lib/gitlab/gitlab-contributors.ts:149-228 | the commit loop, ending at the first failed diff fetch; label handles stay in range (see `FailureSkipsRestOfProject`, `CommitsStepKeepsValid`) |
| Aggregation.ProjectStep | src/lib/gitlab/gitlab-contributors.ts:137-146 | one project pass, no change when its commits cannot be fetched; label handles stay in range (see `FailedProjectIsSkipped`) |
| Aggregation.RunProjects | src/lib/gitlab/gitlab-contributors.ts:74-84 | the project loop; label handles stay in range (see `RunProjectsAppend`, `RunProjectsKeepsValid`) |
| Aggregation.ExcludedCommitOnlyPushes | src/lib/gitlab/gitlab-contributors.ts:168-193 | a no-reply or bot commit writes no entry and changes no count, no extension and no breakdown row; the only change it can make is the label pushed onto the carried-forward array of an already-known author |
| Aggregation.WrittenEntry | src/lib/gitlab/gitlab-contributors.ts:152-200 | a counted commit writes exactly its display key and leaves every other record (email, count, array handle) as it was; the entry holds the commit's email and the carried count plus one (1 for a new author); the project label appears once in its list; the whole new arena is given: a known author's carried array gets the label appended only if absent and every other array is unchanged, while a new author adds one array holding just the label |
| Aggregation.OwnerCommitAccumulates | src/lib/gitlab/gitlab-contributors.ts:157-200 | a further commit by the owner of a name adds one to that entry's count and keeps its label array |
| Aggregation.MarkedEntryMirrorsOriginal | src/lib/gitlab/gitlab-contributors.ts:157-200 | a clashing commit creates the marked entry with the original's count plus one and the original's shared array, leaves the original record as it was, and the project label is then in the original's list |
| Aggregation.DiffsCountedForAuthor | src/lib/gitlab/gitlab-contributors.ts:194-226 | after a counted commit's diffs are fetched, each token's counter for the author's email grows by its number of occurrences; other authors' rows are unchanged; the old extension set is a prefix of the new one, whose members are exactly the old members and the new tokens |
| Aggregation.DiffFailureKeepsEntry | src/lib/gitlab/gitlab-contributors.ts:196-206 | a failed diff fetch stops the project after the entry is written, with no extension or breakdown change |
| Aggregation.FailureSkipsRestOfProject | src/lib/gitlab/gitlab-contributors.ts:149-235 | once a counted commit's diff fetch fails, the rest of that project's commits make no difference |
| Aggregation.FailedProjectIsSkipped | src/lib/gitlab/gitlab-contributors.ts:137-146 | a project whose commits cannot be fetched leaves the aggregates as they were |
| Aggregation.RunProjectsAppend | src/lib/gitlab/gitlab-contributors.ts:74-84 | scanning two lists of projects one after the other is the same as scanning their concatenation |
| Aggregation.TouchKeepsValid | src/lib/gitlab/gitlab-contributors.ts:208-226 | counting a commit's tokens keeps the aggregate invariant: distinct extensions and authors, authors exactly the breakdown keys, every counted token discovered with a positive count, every discovered token counted somewhere |
| Aggregation.PushedKeepsDistinct | src/lib/gitlab/gitlab-contributors.ts:172-183 | the de-duplicated push onto a carried array keeps every label array free of repeats |
| Aggregation.WrittenKeepsValid | src/lib/gitlab/gitlab-contributors.ts:152-200 | writing a counted commit's entry keeps the invariant |
| Aggregation.CommitStepKeepsValid | src/lib/gitlab/gitlab-contributors.ts:149-227 | one iteration of the commit loop keeps the invariant, including positive counts and label lists without repeats |
| Aggregation.CommitsStepKeepsValid | src/lib/gitlab/gitlab-contributors.ts:149-228 | a whole project's commit loop keeps the invariant |
| Aggregation.RunProjectsKeepsValid | src/lib/gitlab/gitlab-contributors.ts:74-84 | the whole project loop keeps the invariant |
| Engine.Aggregator.CountDiffs | src/lib/gitlab/gitlab-contributors.ts:194-226 | the in-place loop over the diffs updates the extension set and the author's counters exactly as the specification `Touch` says |
| Engine.TallyDiffs | src/lib/gitlab/gitlab-contributors.ts:208-224 | the diff loop adds each token to the extension set in order and raises its counter by one per diff, as `AddAll` and `Tally` specify |
| Engine.Aggregator.CarryForward | src/lib/gitlab/gitlab-contributors.ts:152-184 | the lookup finds an entry under the email or the name, carries its count plus one (1 for a new author) and its array, and pushes the label onto that array in place only when absent |
| Engine.Aggregator.ProcessCommit | src/lib/gitlab/gitlab-contributors.ts:150-227 | the in-place commit step (lookup, push onto the shared array, key resolution, write, diff counting) leaves the aggregator in the specified state and reports a failed diff fetch |
| Engine.Aggregator.ProcessProject | src/lib/gitlab/gitlab-contributors.ts:128-237 | the in-place project pass equals the specification `ProjectStep`, stopping at the first failed diff fetch |
| Report.Below | src/lib/gitlab/gitlab-contributors.ts:125 | the string comparison of the default sort: a proper prefix first, else the first differing character decides (see the four lemmas below) |
| Report.BelowIrreflexive | src/lib/gitlab/gitlab-contributors.ts:125 | the code-unit string order used by the default sort is irreflexive |
| Report.BelowTransitive | src/lib/gitlab/gitlab-contributors.ts:125 | that order is transitive |
| Report.BelowTotal | src/lib/gitlab/gitlab-contributors.ts:125 | that order is total on distinct strings |
| Report.BelowCommonPrefix | src/lib/gitlab/gitlab-contributors.ts:125 | a common prefix does not change the order |
| Report.EntryOrderTotal | src/lib/gitlab/gitlab-contributors.ts:125 | comparing entries as `key + ",[object Object]"` orders any two distinct keys one way exactly |
| Report.MarkedNameSortsFirst | src/lib/gitlab/gitlab-contributors.ts:125 | `"name(duplicate)"` sorts before `"name"`, because '(' is below ',' |
| Report.InsertSorted | src/lib/gitlab/gitlab-contributors.ts:125 | inserting a new key keeps the keys sorted and adds exactly that key |
| Report.InsertAddsKey | src/lib/gitlab/gitlab-contributors.ts:125 | insertion adds exactly the inserted key |
| Report.SortedKeysUnique | src/lib/gitlab/gitlab-contributors.ts:125 | two sorted key lists with the same members are equal, so the result does not depend on insertion order |
| Report.SortKeys | src/lib/gitlab/gitlab-contributors.ts:125 | the keys come out sorted, each exactly once |
| Report.SortEntries | src/lib/gitlab/gitlab-contributors.ts:125 | the returned entries are exactly the map's entries, one per key, each with its email, count and label list, in sort order |
| Report.DecimalString | src/lib/gitlab/gitlab-contributors.ts:104 | a count's decimal form is non-empty, all digits, and has no leading zero |
| Report.DecimalRoundTrip | src/lib/gitlab/gitlab-contributors.ts:104 | reading the decimal form back gives the count |
| Report.BuildBreakdown | src/lib/gitlab/gitlab-contributors.ts:87-107 | the table has the header `author` then the extensions in discovery order, then one row per author in insertion order with each extension's count, 0 when absent |
| Report.AbsentCountShowsZero | src/lib/gitlab/gitlab-contributors.ts:104 | an extension the author never touched shows as `"0"` |
| Resolution.FindGroupPaths | src/lib/gitlab/gitlab-contributors.ts:309-338 | every group found has id, name and full path and no visibility, and a failed search finds none |
| Resolution.ProjectQueries | src/lib/gitlab/gitlab-contributors.ts:262-273 | the listing URLs: one per group plus the user's own projects with a group list, one otherwise |
| Resolution.ResolveProjects | src/lib/gitlab/gitlab-contributors.ts:252-307 | every resolved project has a path and an id, and a failed user request throws (see `ResolutionThrowsIff`) |
| Resolution.NoGroupResolution | src/lib/gitlab/gitlab-contributors.ts:257-267 | without a group list, resolution is the single listing with the membership filter exactly when the host mentions gitlab.com |
| Resolution.KeepProjects | src/lib/gitlab/gitlab-contributors.ts:281-298 | exactly the listed projects with both a path and an id are kept |
| Resolution.KeepProjectsAppend | src/lib/gitlab/gitlab-contributors.ts:275-299 | filtering distributes over concatenated listings |
| Resolution.KeepGroups | src/lib/gitlab/gitlab-contributors.ts:321-330 | every kept group is the copy, without visibility, of a found record that has id, name and full path; the copy of every such record is kept; no more groups than records |
| Resolution.KeepGroupsAppend | src/lib/gitlab/gitlab-contributors.ts:321-330 | group filtering distributes over concatenation |
| Resolution.CollectProjects | src/lib/gitlab/gitlab-contributors.ts:274-306 | every collected project has a path and an id |
| Resolution.FetchProjects | src/lib/gitlab/gitlab-contributors.ts:252-307 | the listing loop returns the specified resolution, breaking out at the first failed listing |
| Resolution.FailedListingEndsCollection | src/lib/gitlab/gitlab-contributors.ts:274-305 | a failed listing drops itself and every later listing |
| Resolution.AllListingsCollected | src/lib/gitlab/gitlab-contributors.ts:274-299 | when every listing succeeds, the result is their filtered concatenation in query order |
| Resolution.GroupListQueries | src/lib/gitlab/gitlab-contributors.ts:262-273 | with a group list, one listing per group in order, then the current user's own projects |
| Resolution.NoGroupListQuery | src/lib/gitlab/gitlab-contributors.ts:262-267 | without a group list, a single listing, with the membership filter exactly when the host mentions gitlab.com |
| Resolution.ResolutionThrowsIff | src/lib/gitlab/gitlab-contributors.ts:257-273 | resolution throws exactly when the current-user request fails, or a group list is given and no user is returned |
| Driver.HostOf | src/lib/gitlab/gitlab-contributors.ts:44 | the host is the given URL when truthy, else the default, and never empty |
| Driver.MatchedGroups | src/lib/gitlab/gitlab-contributors.ts:40-49 | every matched group has id, name and full path and no visibility |
| Driver.ModeOf | src/lib/gitlab/gitlab-contributors.ts:34-39 | a truthy project first, then a present group list, then everything visible |
| Driver.Resolve | src/lib/gitlab/gitlab-contributors.ts:34-71 | the projects and the group list resolution leaves (see `ResolveTarget` and the mode lemmas) |
| Driver.ResolveWithoutGroups | src/lib/gitlab/gitlab-contributors.ts:63-71 | without a project or a group list, the run resolves as `fetchGitlabProjects` does with no groups |
| Driver.ResolveTarget | src/lib/gitlab/gitlab-contributors.ts:34-71 | the three modes resolve to the specified projects; in group mode the target's group list is replaced by the encoded full paths of every matched group |
| Driver.SearchGroups | src/lib/gitlab/gitlab-contributors.ts:40-49 | the searches' matches are concatenated in query order |
| Driver.EncodePaths | src/lib/gitlab/gitlab-contributors.ts:50-55 | the new group list holds the encoded full path of each matched group, in order |
| Driver.AggregateAll | src/lib/gitlab/gitlab-contributors.ts:74-84 | the in-place project loop ends in the state the specified project loop gives |
| Driver.FetchContributors | src/lib/gitlab/gitlab-contributors.ts:19-126 | the run rewrites only the target's group list, returns the final contributors sorted, and produces the breakdown table exactly when resolution did not throw, over aggregates that keep the invariant |
| Driver.SingleProjectScannedAlone | src/lib/gitlab/gitlab-contributors.ts:34-38 | a truthy single project is scanned alone under the label `"<path>(undefined)"`, and the group list is kept |
| Driver.UserFailureEndsRun | src/lib/gitlab/gitlab-contributors.ts:118-125 | outside single-project mode, a failed current-user request ends the run with empty aggregates |
| Driver.NoMatchedGroupScansOwnProjects | src/lib/gitlab/gitlab-contributors.ts:39-61 | a group list that matches nothing (an empty list included) becomes empty, and only the current user's own projects are listed |
| Driver.HostChoosesListing | src/lib/gitlab/gitlab-contributors.ts:262-267 | without groups, the membership listing is used exactly when "gitlab.com" occurs in the host |
| Driver.DefaultHostListsMembership | src/lib/gitlab/gitlab-contributors.ts:16 | with no URL given, the default host `https://gitlab.com/` gets the membership listing |

## Left out

- Network I/O, pagination, the credential and the request URLs: `fetchAllPages` is outside this model (`src/lib/gitlab/utils` is not part of it). Every request is a lookup in the `Network` oracle, which answers the same request the same way throughout a run.
- `async`/`await`: the source awaits each call in sequence, so the model is sequential.
- Writing `contributor-breakdown.csv` (`writeFile`, `stringify`): the model returns the table that would be written and leaves out the CSV encoding and the write callback.
- Debug and console logging: it has no effect on the result.
- `encodeURIComponent` is a parameter, not a definition.
- Strings are sequences of Unicode scalar values, not of UTF-16 code units. For text above U+FFFF, lengths and the sort order can therefore differ from JavaScript's.
- Counts are unbounded naturals, so the model does not capture JavaScript number precision above 2^53.
- Records missing `author_name` or `author_email` (where `endsWith` would throw) cannot occur, because the model's `Commit` always holds both strings.
- `GitlabTarget` keeps only the fields the core reads: `url`, `token`, `project` and `groups`.
- The unused imports (`genericRepo`, `genericTarget`, `Integration`, yargs `string`) have no behaviour.
