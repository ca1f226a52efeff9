/** The command-line copy of the candidate builder. It keeps only shas: refs are
    looked up as commits (no pull request form), a release stores its tag's own sha
    without a lookup, and commit dates are RFC 3339 text. Its result also feeds the
    workflow's matrix as a list of includes. */
module RefCandidates {
  import opened Wrappers
  import opened Ordering
  import opened Strings
  import Releases
  import Daily

  /** The client's answers for one run: the sha of a ref, the tags, and the recent
      commit listing. Errors carry the client's message. */
  datatype CliRepo = CliRepo(
    getCommit: string -> Result<string, string>,
    tags: Result<seq<Releases.Tag>, string>,
    commits: Result<seq<Daily.RepoCommit<string>>, string>)

  /** The three groups, each mapping a name to a sha. */
  datatype Candidates = Candidates(refs: map<string, string>, releases: map<string, string>, commits: map<string, string>)

  datatype Stage = RefsStage | ReleasesStage | CommitsStage

  datatype Cause =
    | RefFetch(ref: string, reason: string)
    | TagsFetch(reason: string)
    | CommitsFetch(reason: string)

  datatype Failure = Failure(stage: Stage, cause: Cause)

  /** A workflow matrix entry. */
  datatype Include = Include(name: string, ref: string, commit: string)

  // Refs.

  /** `i` is the first ref whose lookup fails. */
  ghost predicate FirstBadRef(repo: CliRepo, refs: seq<string>, i: int) {
    0 <= i < |refs| && repo.getCommit(refs[i]).Err?
    && forall j :: 0 <= j < i ==> repo.getCommit(refs[j]).Ok?
  }

  /** `setRefs`: each ref in order mapped to its sha, stopping at the first lookup
      that fails. */
  function SetRefs(repo: CliRepo, refs: seq<string>): (r: Result<map<string, string>, Cause>)
    decreases |refs|
  {
    if |refs| == 0 then Ok(map[])
    else
      var ref := refs[|refs| - 1];
      match SetRefs(repo, refs[..|refs| - 1])
      case Err(e) => Err(e)
      case Ok(m) =>
        match repo.getCommit(ref)
        case Err(e) => Err(RefFetch(ref, e))
        case Ok(sha) => Ok(m[ref := sha])
  }

  /** `setRefs` succeeds exactly when every lookup does; it then maps every ref, and
      nothing else, to its sha. */
  lemma {:induction false} SetRefsOk(repo: CliRepo, refs: seq<string>)
    ensures SetRefs(repo, refs).Ok? <==> forall i :: 0 <= i < |refs| ==> repo.getCommit(refs[i]).Ok?
    ensures SetRefs(repo, refs).Ok? ==>
      && (forall k :: k in SetRefs(repo, refs).value <==> k in refs)
      && (forall k :: k in SetRefs(repo, refs).value ==> repo.getCommit(k) == Ok(SetRefs(repo, refs).value[k]))
    decreases |refs|
  {
    if |refs| > 0 {
      var n := |refs| - 1;
      var p := refs[..n];
      SetRefsOk(repo, p);
      assert forall i :: 0 <= i < n ==> refs[i] == p[i];
      assert refs == p + [refs[n]];
      if SetRefs(repo, p).Ok? {
        forall k ensures k in refs <==> k in p || k == refs[n] {
        }
      }
    }
  }

  /** When `setRefs` fails, it reports the first ref whose lookup fails. */
  lemma {:induction false} SetRefsErr(repo: CliRepo, refs: seq<string>) returns (i: nat)
    requires SetRefs(repo, refs).Err?
    ensures FirstBadRef(repo, refs, i)
    ensures SetRefs(repo, refs).error == RefFetch(refs[i], repo.getCommit(refs[i]).error)
    decreases |refs|
  {
    var n := |refs| - 1;
    var p := refs[..n];
    assert forall j :: 0 <= j < n ==> refs[j] == p[j];
    if SetRefs(repo, p).Err? {
      i := SetRefsErr(repo, p);
    } else {
      i := n;
      SetRefsOk(repo, p);
    }
  }

  // Looking up values.

  /** Some entry of `m` has value `value`. */
  predicate HasValue(m: map<string, string>, value: string) {
    exists k :: k in m && m[k] == value
  }

  /** `containsValue`: a scan of the map's values (a nil map has none). */
  method ContainsValue(m: map<string, string>, value: string) returns (found: bool)
    ensures found <==> HasValue(m, value)
  {
    var keys := Enumerate(m);
    var i := 0;
    while i < |keys|
      invariant 0 <= i <= |keys|
      invariant forall j :: 0 <= j < i ==> m[keys[j]] != value
    {
      if m[keys[i]] == value {
        return true;
      }
      i := i + 1;
    }
    forall k | k in m ensures m[k] != value {
      var j :| 0 <= j < |keys| && keys[j] == k;
    }
    return false;
  }

  // Releases.

  /** The loop of `setReleases` over the selected tags: every tag whose sha no ref
      has is stored under its name with its own sha. */
  function ReleaseShas(refs: map<string, string>, selected: seq<Releases.Tag>): (m: map<string, string>)
    decreases |selected|
  {
    if |selected| == 0 then map[]
    else
      var t := selected[|selected| - 1];
      var m := ReleaseShas(refs, selected[..|selected| - 1]);
      if HasValue(refs, t.sha) then m else m[t.name := t.sha]
  }

  /** The release loop holds one entry per name of a selected tag whose sha no ref
      has, and each entry is the sha of such a tag of that name: the last one listed. */
  lemma {:induction false} ReleaseShasMembers(refs: map<string, string>, selected: seq<Releases.Tag>, name: string)
    ensures name in ReleaseShas(refs, selected)
        <==> exists i :: 0 <= i < |selected| && selected[i].name == name && !HasValue(refs, selected[i].sha)
    ensures name in ReleaseShas(refs, selected) ==>
      exists i :: && 0 <= i < |selected| && selected[i].name == name && !HasValue(refs, selected[i].sha)
                  && ReleaseShas(refs, selected)[name] == selected[i].sha
                  && (forall j :: i < j < |selected| && selected[j].name == name ==> HasValue(refs, selected[j].sha))
    decreases |selected|
  {
    if |selected| > 0 {
      var n := |selected| - 1;
      var p := selected[..n];
      var t := selected[n];
      ReleaseShasMembers(refs, p, name);
      assert forall i :: 0 <= i < n ==> selected[i] == p[i];
      var m := ReleaseShas(refs, selected);
      if exists i :: 0 <= i < |selected| && selected[i].name == name && !HasValue(refs, selected[i].sha) {
        var i :| 0 <= i < |selected| && selected[i].name == name && !HasValue(refs, selected[i].sha);
        if i < n {
          assert p[i].name == name;
        }
      }
      if name in m {
        if t.name == name && !HasValue(refs, t.sha) {
          assert selected[n].name == name;
        } else {
          var i :| && 0 <= i < |p| && p[i].name == name && !HasValue(refs, p[i].sha)
                   && ReleaseShas(refs, p)[name] == p[i].sha
                   && (forall j :: i < j < |p| && p[j].name == name ==> HasValue(refs, p[j].sha));
          assert selected[i] == p[i];
        }
      }
    }
  }

  /** `setReleases`: the latest feature releases (command variant) whose shas the refs
      do not already have. */
  function SetReleases(repo: CliRepo, refs: map<string, string>, last: int): Result<map<string, string>, Cause> {
    match repo.tags
    case Err(e) => Err(TagsFetch(e))
    case Ok(tags) => Ok(ReleaseShas(refs, Releases.FilterFeatureReleases(Releases.Cli, tags, last)))
  }

  /** A release's sha is never one of the refs' shas, and it is the sha of a tag. */
  lemma SetReleasesApartFromRefs(repo: CliRepo, refs: map<string, string>, last: int, name: string)
    requires repo.tags.Ok? && name in SetReleases(repo, refs, last).value
    ensures !HasValue(refs, SetReleases(repo, refs, last).value[name])
    ensures exists t :: t in repo.tags.value && t.name == name && t.sha == SetReleases(repo, refs, last).value[name]
  {
    var selected := Releases.FilterFeatureReleases(Releases.Cli, repo.tags.value, last);
    ReleaseShasMembers(refs, selected, name);
    var i :| && 0 <= i < |selected| && selected[i].name == name && !HasValue(refs, selected[i].sha)
             && ReleaseShas(refs, selected)[name] == selected[i].sha
             && (forall j :: i < j < |selected| && selected[j].name == name ==> HasValue(refs, selected[j].sha));
    Releases.FilterKeepsTags(Releases.Cli, repo.tags.value, last);
    assert selected[i] in selected;
  }

  // Commits.

  /** The listing's merge commits carry dates of at least ten characters (a full
      RFC 3339 date); Go would panic slicing a shorter one. */
  predicate DatedMerges(cs: seq<Daily.RepoCommit<string>>) {
    forall i :: 0 <= i < |cs| && Daily.IsMerge(cs[i]) ==> |cs[i].date| >= 10
  }

  lemma MergesAreDated(cs: seq<Daily.RepoCommit<string>>)
    requires DatedMerges(cs)
    ensures forall i :: 0 <= i < |Daily.FilterMergeCommits(cs)| ==> |Daily.FilterMergeCommits(cs)[i].date| >= 10
  {
    var merges := Daily.FilterMergeCommits(cs);
    forall i | 0 <= i < |merges| ensures |merges[i].date| >= 10 {
      assert multiset(merges)[merges[i]] > 0;
      var j :| 0 <= j < |cs| && cs[j] == merges[i];
    }
  }

  /** `setCommits`: for each day, the sha of its last merge commit, unless a ref or a
      release already has it. */
  function SetCommits(repo: CliRepo, refs: map<string, string>, releases: map<string, string>): Result<map<string, string>, Cause>
    requires repo.commits.Ok? ==> DatedMerges(repo.commits.value)
  {
    match repo.commits
    case Err(e) => Err(CommitsFetch(e))
    case Ok(cs) =>
      MergesAreDated(cs);
      var byDay := Daily.CliLastCommitByDay(Daily.FilterMergeCommits(cs));
      Ok(map d | d in byDay && !HasValue(refs, byDay[d].sha) && !HasValue(releases, byDay[d].sha) :: byDay[d].sha)
  }

  /** Each commit candidate is the sha of its day's first merge commit with the
      greatest date text, and no ref or release has that sha. */
  lemma SetCommitsMember(repo: CliRepo, refs: map<string, string>, releases: map<string, string>, d: string) returns (w: nat)
    requires repo.commits.Ok? && DatedMerges(repo.commits.value)
    requires d in SetCommits(repo, refs, releases).value
    ensures var merges := Daily.FilterMergeCommits(repo.commits.value);
      && Daily.FirstGreatestDate(merges, d, w)
      && merges[w] in repo.commits.value && Daily.IsMerge(merges[w])
      && SetCommits(repo, refs, releases).value[d] == merges[w].sha
    ensures !HasValue(refs, SetCommits(repo, refs, releases).value[d])
    ensures !HasValue(releases, SetCommits(repo, refs, releases).value[d])
  {
    var merges := Daily.FilterMergeCommits(repo.commits.value);
    MergesAreDated(repo.commits.value);
    w := Daily.CliKeepsFirstLatest(merges, d);
    assert multiset(merges)[merges[w]] > 0;
  }

  /** The day of a first merge commit with the greatest date text has that commit's
      sha as candidate, unless a ref or a release already has it. */
  lemma SetCommitsWinner(repo: CliRepo, refs: map<string, string>, releases: map<string, string>, d: string, w: int)
    requires repo.commits.Ok? && DatedMerges(repo.commits.value)
    requires Daily.FirstGreatestDate(Daily.FilterMergeCommits(repo.commits.value), d, w)
    requires !HasValue(refs, Daily.FilterMergeCommits(repo.commits.value)[w].sha)
    requires !HasValue(releases, Daily.FilterMergeCommits(repo.commits.value)[w].sha)
    ensures d in SetCommits(repo, refs, releases).value
    ensures SetCommits(repo, refs, releases).value[d] == Daily.FilterMergeCommits(repo.commits.value)[w].sha
  {
    var merges := Daily.FilterMergeCommits(repo.commits.value);
    MergesAreDated(repo.commits.value);
    Daily.CliDayEntry(merges, d, w);
  }

  /** A day has a commit candidate exactly when the first merge commit of that day
      with the greatest date text has a sha no ref and no release has. */
  lemma SetCommitsDays(repo: CliRepo, refs: map<string, string>, releases: map<string, string>, d: string)
    requires repo.commits.Ok? && DatedMerges(repo.commits.value)
    ensures d in SetCommits(repo, refs, releases).value <==>
      exists w :: Daily.FirstGreatestDate(Daily.FilterMergeCommits(repo.commits.value), d, w)
        && !HasValue(refs, Daily.FilterMergeCommits(repo.commits.value)[w].sha)
        && !HasValue(releases, Daily.FilterMergeCommits(repo.commits.value)[w].sha)
  {
    var merges := Daily.FilterMergeCommits(repo.commits.value);
    if d in SetCommits(repo, refs, releases).value {
      var w := SetCommitsMember(repo, refs, releases, d);
      assert Daily.FirstGreatestDate(merges, d, w);
    }
    if exists w :: Daily.FirstGreatestDate(merges, d, w)
        && !HasValue(refs, merges[w].sha) && !HasValue(releases, merges[w].sha) {
      var w :| Daily.FirstGreatestDate(merges, d, w)
        && !HasValue(refs, merges[w].sha) && !HasValue(releases, merges[w].sha);
      SetCommitsWinner(repo, refs, releases, d, w);
    }
  }

  // The whole build.

  /** `getCandidates`: the comma-separated refs (split as Go splits, so an empty
      string is one empty ref), then releases, then commits; the first step that fails
      ends the build with that step's failure. */
  function GetCandidates(repo: CliRepo, refs: string, lastReleases: int): (r: Result<Candidates, Failure>)
    requires repo.commits.Ok? ==> DatedMerges(repo.commits.value)
    ensures r.Ok? <==>
      var rs := SetRefs(repo, Split(refs, ','));
      && rs.Ok?
      && SetReleases(repo, rs.value, lastReleases).Ok?
      && SetCommits(repo, rs.value, SetReleases(repo, rs.value, lastReleases).value).Ok?
    ensures r.Ok? ==> SetRefs(repo, Split(refs, ',')) == Ok(r.value.refs)
    ensures r.Ok? ==> SetReleases(repo, r.value.refs, lastReleases) == Ok(r.value.releases)
    ensures r.Ok? ==> SetCommits(repo, r.value.refs, r.value.releases) == Ok(r.value.commits)
    ensures SetRefs(repo, Split(refs, ',')).Err? ==> r == Err(Failure(RefsStage, SetRefs(repo, Split(refs, ',')).error))
    ensures
      var rs := SetRefs(repo, Split(refs, ','));
      rs.Ok? && SetReleases(repo, rs.value, lastReleases).Err? ==>
        r == Err(Failure(ReleasesStage, SetReleases(repo, rs.value, lastReleases).error))
    ensures
      var rs := SetRefs(repo, Split(refs, ','));
      rs.Ok? && SetReleases(repo, rs.value, lastReleases).Ok? &&
      SetCommits(repo, rs.value, SetReleases(repo, rs.value, lastReleases).value).Err? ==>
        r == Err(Failure(CommitsStage, SetCommits(repo, rs.value, SetReleases(repo, rs.value, lastReleases).value).error))
  {
    match SetRefs(repo, Split(refs, ','))
    case Err(e) => Err(Failure(RefsStage, e))
    case Ok(rm) =>
      match SetReleases(repo, rm, lastReleases)
      case Err(e) => Err(Failure(ReleasesStage, e))
      case Ok(rel) =>
        match SetCommits(repo, rm, rel)
        case Err(e) => Err(Failure(CommitsStage, e))
        case Ok(cm) => Ok(Candidates(rm, rel, cm))
  }

  /** The refs of a successful build are exactly the pieces of the comma-separated
      list, and no sha appears in two groups. */
  lemma GetCandidatesShape(repo: CliRepo, refs: string, lastReleases: int)
    requires repo.commits.Ok? ==> DatedMerges(repo.commits.value)
    requires GetCandidates(repo, refs, lastReleases).Ok?
    ensures var c := GetCandidates(repo, refs, lastReleases).value;
      && (forall k :: k in c.refs <==> k in Split(refs, ','))
      && (forall k :: k in c.releases ==> !HasValue(c.refs, c.releases[k]))
      && (forall k :: k in c.commits ==> !HasValue(c.refs, c.commits[k]) && !HasValue(c.releases, c.commits[k]))
  {
    var c := GetCandidates(repo, refs, lastReleases).value;
    SetRefsOk(repo, Split(refs, ','));
    forall k | k in c.releases ensures !HasValue(c.refs, c.releases[k]) {
      SetReleasesApartFromRefs(repo, c.refs, lastReleases, k);
    }
  }

  // The workflow matrix.

  /** The matrix entry of a ref or a release: named and checked out by its name. */
  function NamedInclude(name: string, sha: string): Include {
    Include(name, name, sha)
  }

  /** The matrix entry of a day: named by the day, checked out by sha. */
  function DayInclude(day: string, sha: string): Include {
    Include(day, sha, sha)
  }

  /** The entries of `m` in the order of `keys`, each made by `entry`. */
  function IncludesOf(m: map<string, string>, keys: seq<string>, entry: (string, string) -> Include): (r: seq<Include>)
    requires forall i :: 0 <= i < |keys| ==> keys[i] in m
    ensures |r| == |keys|
    ensures forall i :: 0 <= i < |keys| ==> r[i] == entry(keys[i], m[keys[i]])
  {
    seq(|keys|, i requires 0 <= i < |keys| => entry(keys[i], m[keys[i]]))
  }

  /** `part` lists every entry of `m` once, each made by `entry` from its key. */
  ghost predicate Covers(m: map<string, string>, part: seq<Include>, entry: (string, string) -> Include) {
    && |part| == |m|
    && (forall i :: 0 <= i < |part| ==> part[i].name in m && part[i] == entry(part[i].name, m[part[i].name]))
    && (forall k :: k in m ==> entry(k, m[k]) in part)
  }

  lemma IncludesOfCovers(m: map<string, string>, keys: seq<string>, entry: (string, string) -> Include)
    requires Enumerates(m, keys)
    requires forall k, v :: entry(k, v).name == k
    ensures Covers(m, IncludesOf(m, keys, entry), entry)
  {
    var r := IncludesOf(m, keys, entry);
    forall k | k in m ensures entry(k, m[k]) in r {
      var i :| 0 <= i < |keys| && keys[i] == k;
      assert r[i] == entry(k, m[k]);
    }
    forall i | 0 <= i < |r| ensures r[i].name in m && r[i] == entry(r[i].name, m[r[i].name]) {
      assert r[i] == entry(keys[i], m[keys[i]]);
    }
  }

  /** Every key of `m` listed once, in some order. */
  ghost predicate Enumerates(m: map<string, string>, keys: seq<string>) {
    |keys| == |m| && forall k :: k in m <==> k in keys
  }

  /** The includes of the three groups in the given key orders. */
  function IncludeList(c: Candidates, refKeys: seq<string>, releaseKeys: seq<string>, dayKeys: seq<string>): seq<Include>
    requires Enumerates(c.refs, refKeys) && Enumerates(c.releases, releaseKeys) && Enumerates(c.commits, dayKeys)
  {
    IncludesOf(c.refs, refKeys, NamedInclude) + IncludesOf(c.releases, releaseKeys, NamedInclude)
      + IncludesOf(c.commits, dayKeys, DayInclude)
  }

  lemma IncludeListCovers(c: Candidates, refKeys: seq<string>, releaseKeys: seq<string>, dayKeys: seq<string>)
    requires Enumerates(c.refs, refKeys) && Enumerates(c.releases, releaseKeys) && Enumerates(c.commits, dayKeys)
    ensures var r := IncludeList(c, refKeys, releaseKeys, dayKeys);
      && |r| == |c.refs| + |c.releases| + |c.commits|
      && Covers(c.refs, r[..|c.refs|], NamedInclude)
      && Covers(c.releases, r[|c.refs|..|c.refs| + |c.releases|], NamedInclude)
      && Covers(c.commits, r[|c.refs| + |c.releases|..], DayInclude)
  {
    var a := IncludesOf(c.refs, refKeys, NamedInclude);
    var b := IncludesOf(c.releases, releaseKeys, NamedInclude);
    var d := IncludesOf(c.commits, dayKeys, DayInclude);
    IncludesOfCovers(c.refs, refKeys, NamedInclude);
    IncludesOfCovers(c.releases, releaseKeys, NamedInclude);
    IncludesOfCovers(c.commits, dayKeys, DayInclude);
    ThreeParts(a, b, d);
  }

  /** The include list of `setGhaOutput`: one entry per ref, then one per release,
      then one per day, each group in the map's (unspecified) order. */
  method Includes(c: Candidates) returns (r: seq<Include>)
    ensures |r| == |c.refs| + |c.releases| + |c.commits|
    ensures Covers(c.refs, r[..|c.refs|], NamedInclude)
    ensures Covers(c.releases, r[|c.refs|..|c.refs| + |c.releases|], NamedInclude)
    ensures Covers(c.commits, r[|c.refs| + |c.releases|..], DayInclude)
  {
    var refKeys := Enumerate(c.refs);
    var releaseKeys := Enumerate(c.releases);
    var dayKeys := Enumerate(c.commits);
    r := IncludeList(c, refKeys, releaseKeys, dayKeys);
    IncludeListCovers(c, refKeys, releaseKeys, dayKeys);
  }

  lemma ThreeParts<T>(a: seq<T>, b: seq<T>, d: seq<T>)
    ensures (a + b + d)[..|a|] == a
    ensures (a + b + d)[|a|..|a| + |b|] == b
    ensures (a + b + d)[|a| + |b|..] == d
  {
  }
}
