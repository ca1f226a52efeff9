/** The library's candidate builder: the commits a benchmark run compares, gathered
    from named refs (branches, shas and pull requests `pr-N`), the latest feature
    releases and the last merge commit of each recent day.

    The GitHub client is a `Repo` value whose fields are its answers for one run;
    the listing of recent commits already covers the requested number of days, since
    the clock is not part of the model. */
module Candidates {
  import opened Wrappers
  import opened Ordering
  import opened Strings
  import Releases
  import Daily

  /** A chosen commit: its sha, its committer date (an instant) and, for a pull
      request, whether it was merged. */
  datatype Commit = Commit(sha: string, date: int, merged: bool)

  /** The three groups of candidates, each keyed by the name shown for it: the ref as
      given, the release tag name, or the day. */
  datatype Candidates = Candidates(refs: map<string, Commit>, releases: map<string, Commit>, commits: map<string, Commit>)

  /** A candidate with its name, as `Sorted` lists them. */
  datatype Ref = Ref(name: string, commit: Commit)

  datatype PullRequest = PullRequest(mergeCommitSha: string, updatedAt: int, merged: bool)

  /** A commit as the client's single-commit lookup returns it. */
  datatype RemoteCommit = RemoteCommit(sha: string, date: int)

  /** The client's answers: a commit for a ref or sha, a pull request for a number,
      the repository's tags, the recent commit listing, and the calendar day of an
      instant (formatting in the date's location). Errors carry the client's message. */
  datatype Repo = Repo(
    getCommit: string -> Result<RemoteCommit, string>,
    getPullRequest: int -> Result<PullRequest, string>,
    tags: Result<seq<Releases.Tag>, string>,
    commits: Result<seq<Daily.RepoCommit<int>>, string>,
    dayOf: int -> string)

  /** The step that failed, and why. */
  datatype Stage = RefsStage | ReleasesStage | CommitsStage

  datatype Cause =
    | BadPullRequestNumber(ref: string)
    | PullRequestFetch(number: int, reason: string)
    | RefFetch(ref: string, reason: string)
    | TagsFetch(reason: string)
    | TagCommitFetch(sha: string, reason: string)
    | CommitsFetch(reason: string)

  datatype Failure = Failure(stage: Stage, cause: Cause)

  /** The largest value of Go's `int` on a 64-bit platform. */
  const MaxInt: int := 0x7FFF_FFFF_FFFF_FFFF

  // Refs.

  /** The digits of a ref of the form `pr-<digits>` (the whole ref, ASCII digits, at
      least one), or `None` for any other ref. */
  function PullRequestDigits(ref: string): (r: Option<string>)
    ensures r.Some? <==> |ref| > 3 && ref[..3] == "pr-" && AllDigits(ref[3..])
    ensures r.Some? ==> |r.value| > 0 && AllDigits(r.value) && ref == "pr-" + r.value
  {
    if |ref| > 3 && ref[..3] == "pr-" && AllDigits(ref[3..]) then
      assert ref == ref[..3] + ref[3..];
      Some(ref[3..])
    else None
  }

  /** `strconv.Atoi` on a digit string: its value, or an error once it exceeds `MaxInt`
      (leading zeros are accepted). */
  function Atoi(digits: string): (r: Option<int>)
    requires AllDigits(digits)
  {
    if DigitsValue(digits) <= MaxInt then Some(DigitsValue(digits)) else None
  }

  /** One ref of `setRefs`: a pull request ref takes the pull request's merge commit,
      its update time and merged flag; any other ref is looked up as a commit. */
  function ResolveRef(repo: Repo, ref: string): Result<Commit, Cause> {
    match PullRequestDigits(ref)
    case Some(digits) =>
      (match Atoi(digits)
       case None => Err(BadPullRequestNumber(ref))
       case Some(n) =>
         match repo.getPullRequest(n)
         case Err(e) => Err(PullRequestFetch(n, e))
         case Ok(pr) => Ok(Commit(pr.mergeCommitSha, pr.updatedAt, pr.merged)))
    case None =>
      match repo.getCommit(ref)
      case Err(e) => Err(RefFetch(ref, e))
      case Ok(cm) => Ok(Commit(cm.sha, cm.date, false))
  }

  /** How `ResolveRef` treats each kind of ref. */
  lemma ResolveRefCases(repo: Repo, ref: string)
    ensures PullRequestDigits(ref).None? ==>
      ResolveRef(repo, ref) == (if repo.getCommit(ref).Ok?
                                then Ok(Commit(repo.getCommit(ref).value.sha, repo.getCommit(ref).value.date, false))
                                else Err(RefFetch(ref, repo.getCommit(ref).error)))
    ensures PullRequestDigits(ref).Some? && DigitsValue(PullRequestDigits(ref).value) > MaxInt ==>
      ResolveRef(repo, ref) == Err(BadPullRequestNumber(ref))
    ensures PullRequestDigits(ref).Some? && DigitsValue(PullRequestDigits(ref).value) <= MaxInt ==>
      var n := DigitsValue(PullRequestDigits(ref).value);
      ResolveRef(repo, ref).Ok? == repo.getPullRequest(n).Ok?
      && (repo.getPullRequest(n).Ok? ==>
            ResolveRef(repo, ref).value.sha == repo.getPullRequest(n).value.mergeCommitSha
            && ResolveRef(repo, ref).value.date == repo.getPullRequest(n).value.updatedAt
            && ResolveRef(repo, ref).value.merged == repo.getPullRequest(n).value.merged)
  {
  }

  /** `i` is the first ref that fails to resolve. */
  ghost predicate FirstBadRef(repo: Repo, refs: seq<string>, i: int) {
    0 <= i < |refs| && ResolveRef(repo, refs[i]).Err?
    && forall j :: 0 <= j < i ==> ResolveRef(repo, refs[j]).Ok?
  }

  /** `setRefs`: the refs in order, stopping at the first that fails. Every ref is
      stored under its own text (for a pull request that is `pr-` and its digits, as
      written). */
  function SetRefs(repo: Repo, refs: seq<string>): (r: Result<map<string, Commit>, Cause>)
    decreases |refs|
  {
    if |refs| == 0 then Ok(map[])
    else
      var ref := refs[|refs| - 1];
      match SetRefs(repo, refs[..|refs| - 1])
      case Err(e) => Err(e)
      case Ok(m) =>
        match ResolveRef(repo, ref)
        case Err(e) => Err(e)
        case Ok(c) => Ok(m[ref := c])
  }

  /** `setRefs` succeeds exactly when every ref resolves; then it holds every ref and
      nothing else, each with what it resolves to. */
  lemma {:induction false} SetRefsOk(repo: Repo, refs: seq<string>)
    ensures SetRefs(repo, refs).Ok? <==> forall i :: 0 <= i < |refs| ==> ResolveRef(repo, refs[i]).Ok?
    ensures SetRefs(repo, refs).Ok? ==>
      && (forall k :: k in SetRefs(repo, refs).value <==> k in refs)
      && (forall k :: k in SetRefs(repo, refs).value ==> ResolveRef(repo, k) == Ok(SetRefs(repo, refs).value[k]))
    decreases |refs|
  {
    if |refs| > 0 {
      var n := |refs| - 1;
      var p := refs[..n];
      var last := refs[n];
      SetRefsOk(repo, p);
      assert forall i :: 0 <= i < n ==> refs[i] == p[i];
      if SetRefs(repo, p).Err? {
        assert SetRefs(repo, refs).Err?;
      } else if ResolveRef(repo, last).Err? {
        assert SetRefs(repo, refs).Err?;
      } else {
        var m := SetRefs(repo, p).value;
        assert SetRefs(repo, refs) == Ok(m[last := ResolveRef(repo, last).value]);
        assert refs == p + [last];
        forall k ensures k in refs <==> k in p || k == last {
        }
      }
    }
  }

  /** When `setRefs` fails, it reports the failure of the first ref that fails. */
  lemma {:induction false} SetRefsErr(repo: Repo, refs: seq<string>) returns (i: nat)
    requires SetRefs(repo, refs).Err?
    ensures FirstBadRef(repo, refs, i)
    ensures SetRefs(repo, refs).error == ResolveRef(repo, refs[i]).error
    decreases |refs|
  {
    var n := |refs| - 1;
    var p := refs[..n];
    assert forall j :: 0 <= j < n ==> refs[j] == p[j];
    if SetRefs(repo, p).Err? {
      i := SetRefsErr(repo, p);
    } else {
      i := n;
      SetRefsOk(repo, p);
    }
  }

  // Looking up shas.

  /** Some candidate of `m` has commit `sha`. */
  predicate HasSha(m: map<string, Commit>, sha: string) {
    exists k :: k in m && m[k].sha == sha
  }

  /** `containsCommitSha`: a scan of the map's values (a nil map has none). */
  method ContainsCommitSha(m: map<string, Commit>, sha: string) returns (found: bool)
    ensures found <==> HasSha(m, sha)
  {
    var keys := Enumerate(m);
    found := false;
    var i := 0;
    while i < |keys|
      invariant 0 <= i <= |keys|
      invariant !found
      invariant forall j :: 0 <= j < i ==> m[keys[j]].sha != sha
    {
      if m[keys[i]].sha == sha {
        return true;
      }
      i := i + 1;
    }
    forall k | k in m ensures m[k].sha != sha {
      var j :| 0 <= j < |keys| && keys[j] == k;
    }
  }

  // Releases.

  /** Tag `t` of the selected releases is passed over because a ref already names
      its commit. */
  predicate SkippedTag(refs: map<string, Commit>, t: Releases.Tag) {
    HasSha(refs, t.sha)
  }

  /** The loop of `setReleases` over the selected tags, in order: a tag whose commit a
      ref already names is skipped, any other is looked up and stored under its name. */
  function ReleaseCommits(repo: Repo, refs: map<string, Commit>, selected: seq<Releases.Tag>): (r: Result<map<string, Commit>, Cause>)
    decreases |selected|
  {
    if |selected| == 0 then Ok(map[])
    else
      var t := selected[|selected| - 1];
      match ReleaseCommits(repo, refs, selected[..|selected| - 1])
      case Err(e) => Err(e)
      case Ok(m) =>
        if SkippedTag(refs, t) then Ok(m)
        else
          match repo.getCommit(t.sha)
          case Err(e) => Err(TagCommitFetch(t.sha, e))
          case Ok(cm) => Ok(m[t.name := Commit(cm.sha, cm.date, false)])
  }

  /** `setReleases`: the latest feature releases (library variant) whose commits the
      refs do not already name. */
  function SetReleases(repo: Repo, refs: map<string, Commit>, last: int): Result<map<string, Commit>, Cause> {
    match repo.tags
    case Err(e) => Err(TagsFetch(e))
    case Ok(tags) => ReleaseCommits(repo, refs, Releases.FilterFeatureReleases(Releases.Library, tags, last))
  }

  /** The release loop succeeds exactly when every tag it does not skip can be looked
      up. It then holds one entry per name of such a tag, and every entry is the
      looked-up commit of a selected, unskipped tag of that name. */
  lemma {:induction false} ReleaseCommitsOk(repo: Repo, refs: map<string, Commit>, selected: seq<Releases.Tag>)
    ensures ReleaseCommits(repo, refs, selected).Ok?
        <==> forall i :: 0 <= i < |selected| && !SkippedTag(refs, selected[i]) ==> repo.getCommit(selected[i].sha).Ok?
    ensures ReleaseCommits(repo, refs, selected).Ok? ==>
      var m := ReleaseCommits(repo, refs, selected).value;
      && (forall name :: name in m <==> exists i :: 0 <= i < |selected| && selected[i].name == name && !SkippedTag(refs, selected[i]))
      && (forall name :: name in m ==>
            (exists i :: 0 <= i < |selected| && selected[i].name == name && !SkippedTag(refs, selected[i])
               && repo.getCommit(selected[i].sha) == Ok(RemoteCommit(m[name].sha, m[name].date)) && !m[name].merged))
    decreases |selected|
  {
    if |selected| > 0 {
      var n := |selected| - 1;
      var p := selected[..n];
      var t := selected[n];
      ReleaseCommitsOk(repo, refs, p);
      assert forall i :: 0 <= i < n ==> selected[i] == p[i];
      var r := ReleaseCommits(repo, refs, selected);
      if r.Ok? {
        var m := r.value;
        var pm := ReleaseCommits(repo, refs, p).value;
        forall name ensures name in m <==> exists i :: 0 <= i < |selected| && selected[i].name == name && !SkippedTag(refs, selected[i]) {
          if name in m && name !in pm {
            assert selected[n].name == name;
          }
          if exists i :: 0 <= i < |selected| && selected[i].name == name && !SkippedTag(refs, selected[i]) {
            var i :| 0 <= i < |selected| && selected[i].name == name && !SkippedTag(refs, selected[i]);
            if i < n {
              assert p[i].name == name;
            }
          }
        }
        forall name | name in m
          ensures exists i :: (0 <= i < |selected| && selected[i].name == name && !SkippedTag(refs, selected[i])
                               && repo.getCommit(selected[i].sha) == Ok(RemoteCommit(m[name].sha, m[name].date)) && !m[name].merged)
        {
          if !SkippedTag(refs, t) && name == t.name {
            assert selected[n].name == name;
          } else {
            var i :| 0 <= i < |p| && p[i].name == name && !SkippedTag(refs, p[i])
              && repo.getCommit(p[i].sha) == Ok(RemoteCommit(pm[name].sha, pm[name].date)) && !pm[name].merged;
            assert selected[i] == p[i];
          }
        }
      } else if ReleaseCommits(repo, refs, p).Ok? {
        assert !SkippedTag(refs, selected[n]) && repo.getCommit(selected[n].sha).Err?;
      }
    }
  }

  // Commits.

  /** `setCommits`: for each day of the listing, the last merge commit of that day,
      unless a ref or a release already names its sha. */
  function SetCommits(repo: Repo, refs: map<string, Commit>, releases: map<string, Commit>): Result<map<string, Commit>, Cause> {
    match repo.commits
    case Err(e) => Err(CommitsFetch(e))
    case Ok(cs) =>
      var byDay := Daily.LibraryLastCommitByDay(Daily.FilterMergeCommits(cs), repo.dayOf);
      Ok(map d | d in byDay && !HasSha(refs, byDay[d].sha) && !HasSha(releases, byDay[d].sha)
             :: Commit(byDay[d].sha, byDay[d].date, false))
  }

  /** The merge commits of a successful listing. */
  function Merges(repo: Repo): seq<Daily.RepoCommit<int>>
    requires repo.commits.Ok?
  {
    Daily.FilterMergeCommits(repo.commits.value)
  }

  /** Each commit candidate is, for its day, the first merge commit of the listing
      with the latest date, and no ref or release names its sha. */
  lemma SetCommitsMember(repo: Repo, refs: map<string, Commit>, releases: map<string, Commit>, d: string) returns (w: nat)
    requires repo.commits.Ok? && d in SetCommits(repo, refs, releases).value
    ensures var merges := Merges(repo);
      && Daily.FirstLatestInstant(merges, repo.dayOf, d, w)
      && merges[w] in repo.commits.value && Daily.IsMerge(merges[w])
      && SetCommits(repo, refs, releases).value[d] == Commit(merges[w].sha, merges[w].date, false)
    ensures !HasSha(refs, SetCommits(repo, refs, releases).value[d].sha)
    ensures !HasSha(releases, SetCommits(repo, refs, releases).value[d].sha)
  {
    var merges := Merges(repo);
    w := Daily.LibraryKeepsFirstLatest(merges, repo.dayOf, d);
    assert multiset(merges)[merges[w]] > 0;
  }

  /** A day has a commit candidate exactly when the first merge commit of that day
      with the latest date has a sha no ref and no release names. */
  lemma SetCommitsDays(repo: Repo, refs: map<string, Commit>, releases: map<string, Commit>, d: string)
    requires repo.commits.Ok?
    ensures d in SetCommits(repo, refs, releases).value <==>
      exists w :: Daily.FirstLatestInstant(Merges(repo), repo.dayOf, d, w)
        && !HasSha(refs, Merges(repo)[w].sha) && !HasSha(releases, Merges(repo)[w].sha)
  {
    var merges := Merges(repo);
    if d in SetCommits(repo, refs, releases).value {
      var w := SetCommitsMember(repo, refs, releases, d);
      assert Daily.FirstLatestInstant(merges, repo.dayOf, d, w);
    }
    if exists w :: Daily.FirstLatestInstant(merges, repo.dayOf, d, w)
        && !HasSha(refs, merges[w].sha) && !HasSha(releases, merges[w].sha) {
      var w :| Daily.FirstLatestInstant(merges, repo.dayOf, d, w)
        && !HasSha(refs, merges[w].sha) && !HasSha(releases, merges[w].sha);
      Daily.LibraryDayEntry(merges, repo.dayOf, d, w);
    }
  }

  // The whole build.

  /** `New`: refs, then releases, then commits; the first step that fails ends the
      build with that step's failure. */
  function New(repo: Repo, refs: seq<string>, lastReleases: int): (r: Result<Candidates, Failure>)
    ensures r.Ok? <==>
      var rs := SetRefs(repo, refs);
      && rs.Ok?
      && SetReleases(repo, rs.value, lastReleases).Ok?
      && SetCommits(repo, rs.value, SetReleases(repo, rs.value, lastReleases).value).Ok?
    ensures r.Ok? ==> SetRefs(repo, refs) == Ok(r.value.refs)
    ensures r.Ok? ==> SetReleases(repo, r.value.refs, lastReleases) == Ok(r.value.releases)
    ensures r.Ok? ==> SetCommits(repo, r.value.refs, r.value.releases) == Ok(r.value.commits)
    ensures SetRefs(repo, refs).Err? ==> r == Err(Failure(RefsStage, SetRefs(repo, refs).error))
    ensures SetRefs(repo, refs).Ok? && SetReleases(repo, SetRefs(repo, refs).value, lastReleases).Err? ==>
      r == Err(Failure(ReleasesStage, SetReleases(repo, SetRefs(repo, refs).value, lastReleases).error))
    ensures
      var rs := SetRefs(repo, refs);
      rs.Ok? && SetReleases(repo, rs.value, lastReleases).Ok? &&
      SetCommits(repo, rs.value, SetReleases(repo, rs.value, lastReleases).value).Err? ==>
        r == Err(Failure(CommitsStage, SetCommits(repo, rs.value, SetReleases(repo, rs.value, lastReleases).value).error))
  {
    match SetRefs(repo, refs)
    case Err(e) => Err(Failure(RefsStage, e))
    case Ok(rm) =>
      match SetReleases(repo, rm, lastReleases)
      case Err(e) => Err(Failure(ReleasesStage, e))
      case Ok(rel) =>
        match SetCommits(repo, rm, rel)
        case Err(e) => Err(Failure(CommitsStage, e))
        case Ok(cm) => Ok(Candidates(rm, rel, cm))
  }

  /** The client answers a lookup of a listed tag's sha with the commit of that sha. */
  ghost predicate TagShasLookUp(repo: Repo) {
    repo.tags.Ok? ==>
      forall t :: t in repo.tags.value && repo.getCommit(t.sha).Ok? ==> repo.getCommit(t.sha).value.sha == t.sha
  }

  /** No release or commit candidate repeats the commit of a ref, and no commit
      candidate repeats the commit of a release (the releases' part needs the client
      to answer a tag's sha lookup with that sha). */
  lemma NewKeepsShasApart(repo: Repo, refs: seq<string>, lastReleases: int)
    requires TagShasLookUp(repo)
    requires New(repo, refs, lastReleases).Ok?
    ensures var c := New(repo, refs, lastReleases).value;
      && (forall k :: k in c.releases ==> !HasSha(c.refs, c.releases[k].sha))
      && (forall k :: k in c.commits ==> !HasSha(c.refs, c.commits[k].sha) && !HasSha(c.releases, c.commits[k].sha))
  {
    var c := New(repo, refs, lastReleases).value;
    var selected := Releases.FilterFeatureReleases(Releases.Library, repo.tags.value, lastReleases);
    Releases.FilterKeepsTags(Releases.Library, repo.tags.value, lastReleases);
    ReleaseCommitsOk(repo, c.refs, selected);
    forall k | k in c.releases ensures !HasSha(c.refs, c.releases[k].sha) {
      var i :| 0 <= i < |selected| && selected[i].name == k && !SkippedTag(c.refs, selected[i])
        && repo.getCommit(selected[i].sha) == Ok(RemoteCommit(c.releases[k].sha, c.releases[k].date)) && !c.releases[k].merged;
      assert selected[i] in selected;
    }
  }

  // Reading the candidates.

  /** `List`: all candidates in one map; a name in several groups takes the commit
      of the last group (commits over releases over refs). */
  function List(c: Candidates): (r: map<string, Commit>)
    ensures forall k :: k in r <==> k in c.refs || k in c.releases || k in c.commits
    ensures forall k :: k in c.commits ==> r[k] == c.commits[k]
    ensures forall k :: k in c.releases && k !in c.commits ==> r[k] == c.releases[k]
    ensures forall k :: k in c.refs && k !in c.releases && k !in c.commits ==> r[k] == c.refs[k]
  {
    c.refs + c.releases + c.commits
  }

  /** With no name in two groups, `List` loses nothing: it has as many entries as
      the three groups together. */
  lemma ListOfDisjointGroups(c: Candidates)
    requires c.refs.Keys !! c.releases.Keys && c.refs.Keys !! c.commits.Keys && c.releases.Keys !! c.commits.Keys
    ensures |List(c)| == |c.refs| + |c.releases| + |c.commits|
  {
    var keys := c.refs.Keys + c.releases.Keys + c.commits.Keys;
    assert List(c).Keys == keys;
    assert |c.refs.Keys + c.releases.Keys| == |c.refs.Keys| + |c.releases.Keys|;
    assert |keys| == |c.refs.Keys + c.releases.Keys| + |c.commits.Keys|;
  }

  /** `Before` on committer dates, allowing equal dates either way. */
  function NotLater(a: Ref, b: Ref): bool {
    a.commit.date <= b.commit.date
  }

  lemma NotLaterTotal()
    ensures TotalPreorder(NotLater)
  {
  }

  /** The candidates of `all` in the order of `names`. */
  function RefsOf(all: map<string, Commit>, names: seq<string>): (r: seq<Ref>)
    requires forall i :: 0 <= i < |names| ==> names[i] in all
    ensures |r| == |names|
    ensures forall i :: 0 <= i < |names| ==> r[i] == Ref(names[i], all[names[i]])
  {
    seq(|names|, i requires 0 <= i < |names| => Ref(names[i], all[names[i]]))
  }

  /** Listing every name once gives every candidate once. */
  lemma RefsOfEveryName(all: map<string, Commit>, names: seq<string>)
    requires NoDuplicates(names)
    requires forall k :: k in all <==> k in names
    ensures NoDuplicates(RefsOf(all, names))
    ensures forall x :: x in RefsOf(all, names) <==> x.name in all && all[x.name] == x.commit
  {
    var refs := RefsOf(all, names);
    forall i, j | 0 <= i < j < |refs| ensures refs[i] != refs[j] {
      assert refs[i].name == names[i] && refs[j].name == names[j];
    }
    forall x: Ref | x.name in all && all[x.name] == x.commit ensures x in refs {
      var i :| 0 <= i < |names| && names[i] == x.name;
      assert refs[i] == x;
    }
  }

  lemma SameMultisetSameMembers<T>(a: seq<T>, b: seq<T>)
    requires multiset(a) == multiset(b)
    ensures forall x :: x in a <==> x in b
  {
    forall x ensures x in a <==> x in b {
      assert x in a <==> x in multiset(a);
      assert x in b <==> x in multiset(b);
    }
  }

  /** `Sorted`: every candidate of `List` once, from the oldest commit date to the
      newest. Entries with equal dates come in no fixed order (Go's sort is not
      stable and its map order is random). */
  method Sorted(c: Candidates) returns (r: seq<Ref>)
    ensures |r| == |List(c)|
    ensures forall x :: x in r <==> x.name in List(c) && List(c)[x.name] == x.commit
    ensures NoDuplicates(r)
    ensures SortedBy(r, NotLater)
  {
    var all := List(c);
    var names := Enumerate(all);
    var refs := RefsOf(all, names);
    RefsOfEveryName(all, names);
    r := SortBy(refs, NotLater);
    NotLaterTotal();
    SortByIsSorted(refs, NotLater);
    PermutationKeepsNoDuplicates(refs, r);
    SameMultisetSameMembers(refs, r);
  }
}
