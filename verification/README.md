# Benchmark candidate selection, in Dafny

A model of how the benchmark tooling chooses the commits a benchmark run compares.
These are its "candidates", in three groups:

- **refs**: named branches, shas and pull requests written `pr-N`.
- **releases**: the latest feature releases, meaning the newest tag of each of the
  last `lastReleases` major.minor lines plus that line's `.0` tag.
- **commits**: the last merge commit of each recent day.

A ref's commit is never repeated as a release, and neither is ever repeated as a
daily commit. The selection exists twice. One copy is the reusable library in
`util/candidates`, which keeps commits with dates and `merged` flags. The other is
the command in `cmd/refcandidates`, which keeps only shas, has no pull-request
form and no pre-release case, and also builds the workflow-matrix include list.

The GitHub client is a value whose fields are its answers for one run: a commit
lookup, a pull-request lookup, the tag list and the listing of recent commits.
Each answer is a `Result`, so every error path of the source is modelled. The
listing already covers the requested number of days, because the clock is not
modelled.

Modules, one per concern:

- `Wrappers`: `Option` and `Result`.
- `Strings`: digits, `Split` and `Join` as Go's `strings` defines them.
- `Ordering`: comparison laws, string order, insertion sort and sortedness, and
  duplicate-freedom.
- `Semver`: a parser for the version grammar of golang.org/x/mod/semver and its
  `IsValid`, `MajorMinor`, `Prerelease` and `Compare`. It also holds
  `getPatchVersion`, which matches the pattern `^v?\d+\.\d+\.\d+$`.
- `Releases`: `filterFeatureReleases`. Both copies are written once, over a
  `Filter` record that carries the copy (`Library` or `Cli`) and the version
  operations it calls.
- `Daily`: `filterMergeCommits` and `lastCommitByDay`, written once over the date
  representation. Library dates are instants; command dates are RFC 3339 text.
- `Candidates`: the library's `New`, `setRefs`, `setReleases`, `setCommits`,
  `containsCommitSha`, `List` and `Sorted`.
- `RefCandidates`: the command's `getCandidates`, `setRefs`, `setReleases`,
  `setCommits`, `containsValue` and the include list of `setGhaOutput`.

Loops that stop at the first error are prefix-recursive folds, so the error
reported is the error of the first element that fails. Tags inside the release
filter are identified by their position in the input. That position stands in
for the library's pointer identity: its test `zt.Name != lt.Name` compares
pointers, while the command's test compares names.

Go's map order is unspecified, so results built by iterating a map are stated up
to order. `Releases.AnyLineOrder` shows that every visiting order collects the
same tags. `Sorted` and `Includes` take the keys in an order the model does not
fix. `sort.Slice` is not stable; the model sorts with an insertion sort and
states only sortedness and membership, so ties stay unordered.

Three behaviours of the code are easy to misread:

1. **Worked example.** On the tags `v2.0.0, v1.5.2, v1.5.0, v1.4.3` with
   `last = 2`, the loop leaves before `v1.4.3`, because both maps already hold two
   lines. The result is `v2.0.0, v1.5.2, v1.5.0` (`Releases.WorkedExample`).
2. **Ties in the daily pick.** The comparison is a strict "after", so the first
   commit with the latest date of a day is kept, not the last.
3. **`pr-abc`.** A ref that does not match `^pr-\d+$` is looked up as a commit. It
   is not rejected.

## Model

| member | source | states |
|---|---|---|
| Releases.ScanStopsAtFirstFull | util/candidates/candidates.go:202-206 | The loop with its `break` ends in the state of the plain loop over the tags before the first position where both maps hold exactly `last` lines. |
| Releases.StopFromIsFirst | util/candidates/candidates.go:204-205 | The exit position is the first at which both map sizes equal `last`, or the end of the list. |
| Releases.RunDescribed | util/candidates/candidates.go:207-221 | After any prefix of tags, each line's latest tag is the first counted tag of that line that is at least every counted tag of that line. The line's `.0` tag is the last counted `.0` tag of it. The kept pre-release is the first valid pre-release met while both maps were still empty. |
| Releases.ZeroLinesHaveLatest | util/candidates/candidates.go:214-220 | Every line with a `.0` tag also has a latest tag, so the result loop reports every `.0` tag. |
| Releases.ResultMembers | util/candidates/candidates.go:223-232 | A tag is in the result iff, judged over the tags before the exit, it is one of three things. It may be the leading pre-release (library only). It may be its line's first greatest tag. Or it may be its line's last `.0` tag, provided it differs from the latest: a different tag element in the library, a different name in the command. |
| Releases.ResultDistinct | util/candidates/candidates.go:223-232 | No tag element is collected twice. |
| Releases.AnyLineOrder | util/candidates/candidates.go:227-232 | Visiting the lines in any order collects the same multiset of tags. |
| Releases.FilterWith | util/candidates/candidates.go:233-236 | The returned list is a permutation of the collected tags. |
| Releases.FilterSorted | util/candidates/candidates.go:233-236 | The returned list is in non-increasing `semver.Compare` order. |
| Releases.NothingWhenLastIsZero | util/candidates/candidates.go:204-205 | With `last` zero the loop leaves before the first tag, and nothing is returned, not even a pre-release. |
| Releases.FilterKeepsTags | cmd/refcandidates/candidates.go:170-198 | Every returned tag is one of the input tags. |
| Releases.WorkedExample | util/candidates/candidates.go:198-237 | On `v2.0.0, v1.5.2, v1.5.0, v1.4.3` with `last = 2`, the result is `v2.0.0, v1.5.2, v1.5.0`, and the loop stops before `v1.4.3`. |
| Releases.ExampleScan | util/candidates/candidates.go:202-221 | In that example the loop exits at position 3, with lines `v2.0` and `v1.5` in both maps. |
| Releases.SemverFiltersLawful | util/candidates/candidates.go:218 | The semver comparison both copies use is a total preorder. |
| Semver.CompareLaws | util/candidates/candidates.go:218 | `Compare` is antisymmetric (swapping the arguments negates the answer), reflexive and transitive on "at least". |
| Semver.ReleaseFacts | util/candidates/candidates.go:207-215 | A plain release `vA.B.C` is valid, not a pre-release, of line `vA.B`, and has patch string `C`. |
| Semver.PatchVersionOfRelease | util/candidates/candidates.go:239-248 | Every string of the pattern `^v?\d+\.\d+\.\d+$`, leading zeros allowed, yields its third number. |
| Semver.PatchVersionShape | cmd/refcandidates/candidates.go:200-209 | Conversely, a nonempty result comes only from a string of that pattern. |
| Semver.PatchVersionExamples | cmd/refcandidates/candidates.go:200-209 | `v1.2.0` gives "0", while `v1.2.0-rc.1` and `v1.2` give "". |
| Daily.FilterMergeCommits | util/candidates/candidates.go:177-185 | Each commit with more than one parent is kept as often as it occurs, and no other commit is kept. |
| Daily.FilterMergeCommitsAppend | cmd/refcandidates/candidates.go:149-157 | Filtering works front to back: filtering a concatenation filters each part and keeps the parts in order. |
| Daily.FilterMergeCommitsIdempotent | util/candidates/candidates.go:177-185 | Filtering twice is filtering once. |
| Daily.LastCommitByDayKeys | util/candidates/candidates.go:187-196 | A day has an entry iff some commit of the listing falls on that day. |
| Daily.LastCommitByDayWinner | util/candidates/candidates.go:189-193 | Under any strict weak "after", a day's entry is the first of that day's latest commits. |
| Daily.LibraryKeepsFirstLatest | util/candidates/candidates.go:187-196 | Among a day's instants, the entry's instant is the latest, and it is strictly later than every earlier-listed commit of that day. |
| Daily.CliKeepsFirstLatest | cmd/refcandidates/candidates.go:159-168 | The entry for key `date[:10]` has the greatest date text, and it is strictly greater than every earlier-listed commit with that key. |
| Daily.LibraryDayEntry | util/candidates/candidates.go:187-196 | Conversely, a day's first commit with the latest instant is that day's entry. |
| Daily.CliDayEntry | cmd/refcandidates/candidates.go:159-168 | Conversely, the first commit with the greatest date text for a `date[:10]` key is that key's entry. |
| Candidates.PullRequestDigits | util/candidates/candidates.go:21 | A ref takes the pull-request path iff it is `pr-` followed by one or more digits, and it is then `"pr-"` + those digits. |
| Candidates.ResolveRefCases | util/candidates/candidates.go:102-125 | Any other ref is looked up as a commit, with `merged` false. Digits beyond Go's `int` range fail. Otherwise the pull request's merge commit, update time and merged flag are used. |
| Candidates.SetRefsOk | util/candidates/candidates.go:99-129 | `setRefs` succeeds iff every ref resolves; the map then holds exactly the refs, each with what it resolves to. |
| Candidates.SetRefsErr | util/candidates/candidates.go:101-121 | On failure, the error reported is that of the first ref that fails to resolve. |
| Candidates.ContainsCommitSha | util/candidates/candidates.go:250-260 | The result is true iff some candidate of the map has that sha; an empty map has none. |
| Candidates.ReleaseCommitsOk | util/candidates/candidates.go:137-150 | The release loop succeeds iff every selected tag whose commit no ref names can be looked up. The map then has one entry per name of such a tag, holding that tag's looked-up commit. |
| Candidates.SetCommitsMember | util/candidates/candidates.go:155-175 | Each daily candidate is its day's first merge commit with the latest instant, and no ref or release names its sha. |
| Candidates.SetCommitsDays | util/candidates/candidates.go:155-175 | A day has a candidate iff the first merge commit of that day with the latest instant has a sha that no ref and no release names. |
| Candidates.New | util/candidates/candidates.go:43-57 | Refs, releases and commits are built in order, each from the previous groups. The first step that fails ends the build with that stage's error. |
| Candidates.NewKeepsShasApart | util/candidates/candidates.go:131-175 | In a built value, no release repeats a ref's commit, and no daily commit repeats a ref's or a release's commit. |
| Candidates.List | util/candidates/candidates.go:71-83 | The union of the three key sets, where commits override releases and releases override refs. |
| Candidates.ListOfDisjointGroups | util/candidates/candidates.go:71-83 | When no name is in two groups, `List` has as many entries as the three groups together. |
| Candidates.Sorted | util/candidates/candidates.go:85-97 | Every candidate of `List` appears exactly once, with its name and commit, in non-decreasing date order. |
| RefCandidates.SetRefsOk | cmd/refcandidates/candidates.go:100-111 | `setRefs` succeeds iff every lookup does, and then maps exactly the refs to their shas. |
| RefCandidates.SetRefsErr | cmd/refcandidates/candidates.go:102-106 | On failure, the error reported is the lookup error of the first ref that fails. |
| RefCandidates.ContainsValue | cmd/refcandidates/candidates.go:211-221 | The result is true iff some entry of the map has that value; an empty map has none. |
| RefCandidates.ReleaseShasMembers | cmd/refcandidates/candidates.go:118-125 | There is one entry per name of a selected tag whose sha no ref has. The entry holds the sha of the last such tag of that name. |
| RefCandidates.SetReleasesApartFromRefs | cmd/refcandidates/candidates.go:113-128 | A release's sha is never a ref's sha, and it is the sha of one of the repository's tags with that name. |
| RefCandidates.SetCommitsMember | cmd/refcandidates/candidates.go:130-147 | Each daily candidate is the sha of the first merge commit with the greatest date text for its `date[:10]`, and no ref or release has that sha. |
| RefCandidates.SetCommitsWinner | cmd/refcandidates/candidates.go:130-147 | The first merge commit with the greatest date text for a `date[:10]` key becomes that day's candidate sha when no ref or release has its sha. |
| RefCandidates.SetCommitsDays | cmd/refcandidates/candidates.go:130-147 | A day has a candidate iff the first merge commit with the greatest date text for that `date[:10]` key has a sha that no ref and no release has. |
| RefCandidates.GetCandidates | cmd/refcandidates/candidates.go:29-44 | The comma-split refs, then releases, then commits are built in order; the first step that fails ends the build with that stage's error. |
| RefCandidates.GetCandidatesShape | cmd/refcandidates/candidates.go:29-44 | The refs of a built value are exactly the pieces of the comma-separated list, and no sha appears in two groups. |
| RefCandidates.Includes | cmd/refcandidates/candidates.go:64-91 | The include list has one entry per ref, then per release, then per day, as many as the three groups together. Refs and releases have name = ref = key; days have name = day and ref = commit = sha. |
| Strings.SplitJoin | cmd/refcandidates/candidates.go:33 | Splitting the join of pieces that do not contain the separator gives the pieces back. |

## Left out

- The GitHub client is not modelled: its lookups are fields of `Repo` and `CliRepo`, each answer given as a `Result` for one run. Pointer dereferences that would panic on a missing field are not modelled.
- `time.Now` and the `lastDays` window are not modelled: the commit listing is given and is taken to cover the requested days.
- The library's day format `Format("2006-01-02")` depends on the date's location, so it is the parameter `dayOf`.
- `Load`, `MarshalJSON`, `WriteFile`, `githubactions.SetOutput` and `log.Printf` are I/O and are not modelled. The include list is modelled up to its JSON encoding.
- cmd/gotestmetrics is command-line wiring only and is not part of this model.
- Go's map iteration order is nondeterministic. Where it decides an order, the model picks an order it does not fix and states results up to order.
- Candidates.Sorted: does not state where entries with equal dates land, because Go's `sort.Slice` is not stable; an insertion sort stands in for it.
- Candidates.NewKeepsShasApart: assumes the client answers a lookup of a listed tag's sha with the commit of that sha (`TagShasLookUp`). The library skips a tag by its own sha but stores the looked-up commit's sha, so only the separation of releases from refs needs this assumption.
- Daily.CliDay: takes the first ten characters of a date, where Go's `date[:10]` takes the first ten bytes; the two agree on the ASCII text of RFC 3339 dates.
- RefCandidates.SetCommits: asks that merge commits carry dates of at least ten characters; Go would panic slicing `date[:10]` on a shorter one.
- Date text is compared character by character, where Go compares UTF-8 bytes; the two orders agree on valid UTF-8 text.
- Candidates.Atoi: `strconv.Atoi` is modelled on the digits of the pattern only, failing above 2^63 - 1; other inputs cannot reach it.
- Semver.Compare: numbers are compared by value; semver compares canonical digit strings by length and then text, which is the same for numbers without leading zeros.
- Semver.Parse: follows the grammar of golang.org/x/mod/semver, an external library whose code is not modelled; version strings beyond that grammar's cases are out of scope.
