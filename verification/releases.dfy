/** `filterFeatureReleases`: from a newest-first list of tags, pick the latest release
    of each major.minor line and that line's ".0" release, stopping as soon as both
    have been found for `last` lines; the library's copy also keeps the first
    pre-release that comes before every release. */
module Releases {
  import opened Wrappers
  import opened Ordering
  import Semver
  import Strings

  /** A repository tag: its name and the SHA of the commit it points at. */
  datatype Tag = Tag(name: string, sha: string)

  /** The two copies of the filter. `Library` keeps the leading pre-release and tells
      a ".0" tag from the latest one by tag element; `Cli` has no pre-release case and
      compares the two by name. */
  datatype Variant = Library | Cli

  /** One copy of the filter together with the version operations it calls. The
      properties below hold for any operations whose comparison is a preorder
      (`Lawful`); `LibraryFilter` and `CliFilter` plug in the semver ones. */
  datatype Filter = Filter(
    variant: Variant,
    valid: string -> bool,
    prerelease: string -> bool,
    majorMinor: string -> string,
    patch: string -> string,
    compare: (string, string) -> int)

  const LibraryFilter := Filter(Library, Semver.IsValid, Semver.IsPrerelease, Semver.MajorMinor, Semver.PatchVersion, Semver.Compare)
  const CliFilter := Filter(Cli, Semver.IsValid, Semver.IsPrerelease, Semver.MajorMinor, Semver.PatchVersion, Semver.Compare)

  ghost predicate Lawful(f: Filter) {
    Preorder(f.compare)
  }

  lemma SemverFiltersLawful()
    ensures Lawful(LibraryFilter) && Lawful(CliFilter)
  {
    Semver.CompareIsPreorder();
  }

  /** The loop's variables, with tags referred to by their position in the input:
      the captured pre-release and, per major.minor line, the latest and the ".0" tag. */
  datatype ScanState = ScanState(candidate: Option<nat>, latest: map<string, nat>, zero: map<string, nat>)

  const Start := ScanState(None, map[], map[])

  /** The major.minor line of tag `i`, e.g. "v1.5" for "v1.5.2". */
  function Line(f: Filter, tags: seq<Tag>, i: nat): string
    requires i < |tags|
  {
    f.majorMinor(tags[i].name)
  }

  /** Every position the state holds is below `n`. */
  predicate Bounded(st: ScanState, n: nat) {
    && (st.candidate.Some? ==> st.candidate.value < n)
    && (forall mm :: mm in st.latest ==> st.latest[mm] < n)
    && (forall mm :: mm in st.zero ==> st.zero[mm] < n)
  }

  /** The loop's exit test: both maps hold exactly `last` lines. */
  predicate Full(st: ScanState, last: int) {
    |st.latest| == last && |st.zero| == last
  }

  /** One iteration of the loop body, on tag `i`. */
  function Step(f: Filter, tags: seq<Tag>, i: nat, st: ScanState): (r: ScanState)
    requires i < |tags| && Bounded(st, i)
    ensures Bounded(r, i + 1)
  {
    var name := tags[i].name;
    if !f.valid(name) then st
    else if f.variant == Library && f.prerelease(name) && |st.latest| == 0 && |st.zero| == 0 then
      if st.candidate.None? then st.(candidate := Some(i)) else st
    else
      var mm := f.majorMinor(name);
      var zero := if f.patch(name) == "0" then st.zero[mm := i] else st.zero;
      var latest :=
        if mm !in st.latest || f.compare(name, tags[st.latest[mm]].name) > 0 then st.latest[mm := i]
        else st.latest;
      ScanState(st.candidate, latest, zero)
  }

  /** The loop body applied to the first `k` tags, ignoring the exit test. */
  function Run(f: Filter, tags: seq<Tag>, k: nat): (st: ScanState)
    requires k <= |tags|
    ensures Bounded(st, k)
  {
    if k == 0 then Start else Step(f, tags, k - 1, Run(f, tags, k - 1))
  }

  /** The loop from tag `i` on, leaving as soon as the exit test holds. */
  function Scan(f: Filter, tags: seq<Tag>, last: int, i: nat, st: ScanState): (r: ScanState)
    requires i <= |tags| && Bounded(st, i)
    ensures Bounded(r, |tags|)
    decreases |tags| - i
  {
    if i == |tags| || Full(st, last) then st
    else Scan(f, tags, last, i + 1, Step(f, tags, i, st))
  }

  /** The first position from `i` on where the exit test holds, or the end of the list
      (see `StopFromIsFirst`). */
  function StopFrom(f: Filter, tags: seq<Tag>, last: int, i: nat): (k: nat)
    requires i <= |tags|
    ensures i <= k <= |tags|
    decreases |tags| - i
  {
    if i == |tags| || Full(Run(f, tags, i), last) then i else StopFrom(f, tags, last, i + 1)
  }

  /** The loop exits at the first position where both maps hold `last` lines. */
  lemma {:induction false} StopFromIsFirst(f: Filter, tags: seq<Tag>, last: int, i: nat)
    requires i <= |tags|
    ensures var k := StopFrom(f, tags, last, i);
      && (k == |tags| || Full(Run(f, tags, k), last))
      && (forall j :: i <= j < k ==> !Full(Run(f, tags, j), last))
    decreases |tags| - i
  {
    if i < |tags| && !Full(Run(f, tags, i), last) {
      StopFromIsFirst(f, tags, last, i + 1);
    }
  }

  /** One turn of the loop that does not exit. */
  lemma ScanOneStep(f: Filter, tags: seq<Tag>, last: int, i: nat)
    requires i < |tags| && !Full(Run(f, tags, i), last)
    ensures Scan(f, tags, last, i, Run(f, tags, i)) == Scan(f, tags, last, i + 1, Run(f, tags, i + 1))
    ensures StopFrom(f, tags, last, i) == StopFrom(f, tags, last, i + 1)
  {
  }

  /** The loop with its early exit ends in the state of the plain fold over the tags
      before the first position where the exit test holds. */
  lemma {:induction false} ScanStopsAtFirstFull(f: Filter, tags: seq<Tag>, last: int, i: nat)
    requires i <= |tags|
    ensures Scan(f, tags, last, i, Run(f, tags, i)) == Run(f, tags, StopFrom(f, tags, last, i))
    decreases |tags| - i
  {
    var st := Run(f, tags, i);
    if i == |tags| || Full(st, last) {
      assert StopFrom(f, tags, last, i) == i;
      assert Scan(f, tags, last, i, st) == st;
    } else {
      ScanOneStep(f, tags, last, i);
      ScanStopsAtFirstFull(f, tags, last, i + 1);
    }
  }

  // Reference definitions: what the loop computes, stated per position.

  /** Every valid tag before `k` is a pre-release the library sets aside. */
  predicate Quiet(f: Filter, tags: seq<Tag>, k: nat)
    requires k <= |tags|
  {
    forall j :: 0 <= j < k && f.valid(tags[j].name) ==> f.variant == Library && f.prerelease(tags[j].name)
  }

  /** Tag `j` is a valid pre-release met while every earlier valid tag was one too
      (library only): it is never entered into the maps. */
  predicate Skipped(f: Filter, tags: seq<Tag>, j: nat)
    requires j < |tags|
  {
    f.valid(tags[j].name) && f.variant == Library && f.prerelease(tags[j].name) && Quiet(f, tags, j)
  }

  /** Tag `j` is entered into the maps. */
  predicate Counted(f: Filter, tags: seq<Tag>, j: nat)
    requires j < |tags|
  {
    f.valid(tags[j].name) && !Skipped(f, tags, j)
  }

  /** Some counted tag before `k` is of line `mm`. */
  predicate HasLine(f: Filter, tags: seq<Tag>, k: nat, mm: string)
    requires k <= |tags|
  {
    exists j :: 0 <= j < k && Counted(f, tags, j) && Line(f, tags, j) == mm
  }

  /** Some counted ".0" tag before `k` is of line `mm`. */
  predicate HasZero(f: Filter, tags: seq<Tag>, k: nat, mm: string)
    requires k <= |tags|
  {
    exists j :: 0 <= j < k && Counted(f, tags, j) && Line(f, tags, j) == mm && f.patch(tags[j].name) == "0"
  }

  /** Among the counted tags of line `mm` before `k`, `l` is the first of the greatest. */
  predicate LatestOf(f: Filter, tags: seq<Tag>, k: nat, mm: string, l: nat)
    requires k <= |tags|
  {
    && l < k && Counted(f, tags, l) && Line(f, tags, l) == mm
    && (forall j :: 0 <= j < k && Counted(f, tags, j) && Line(f, tags, j) == mm ==> f.compare(tags[l].name, tags[j].name) >= 0)
    && (forall j :: 0 <= j < l && Counted(f, tags, j) && Line(f, tags, j) == mm ==> f.compare(tags[l].name, tags[j].name) > 0)
  }

  /** Among the counted ".0" tags of line `mm` before `k`, `z` is the last. */
  predicate ZeroOf(f: Filter, tags: seq<Tag>, k: nat, mm: string, z: nat)
    requires k <= |tags|
  {
    && z < k && Counted(f, tags, z) && Line(f, tags, z) == mm && f.patch(tags[z].name) == "0"
    && (forall j :: z < j < k && Counted(f, tags, j) && Line(f, tags, j) == mm ==> f.patch(tags[j].name) != "0")
  }

  /** `c` is the first skipped pre-release before `k`. */
  predicate FirstSkipped(f: Filter, tags: seq<Tag>, k: nat, c: nat)
    requires k <= |tags|
  {
    c < k && Skipped(f, tags, c) && forall j :: 0 <= j < c ==> !Skipped(f, tags, j)
  }

  ghost predicate LatestInv(f: Filter, tags: seq<Tag>, k: nat, st: ScanState)
    requires k <= |tags|
  {
    forall mm ::
      && (mm in st.latest <==> HasLine(f, tags, k, mm))
      && (mm in st.latest ==> LatestOf(f, tags, k, mm, st.latest[mm]))
  }

  ghost predicate ZeroInv(f: Filter, tags: seq<Tag>, k: nat, st: ScanState)
    requires k <= |tags|
  {
    forall mm ::
      && (mm in st.zero <==> HasZero(f, tags, k, mm))
      && (mm in st.zero ==> ZeroOf(f, tags, k, mm, st.zero[mm]))
  }

  ghost predicate CandidateInv(f: Filter, tags: seq<Tag>, k: nat, st: ScanState)
    requires k <= |tags|
  {
    match st.candidate
    case None => forall j :: 0 <= j < k ==> !Skipped(f, tags, j)
    case Some(c) => FirstSkipped(f, tags, k, c)
  }

  /** The state after `k` tags is the one the reference definitions describe. */
  ghost predicate Describes(f: Filter, tags: seq<Tag>, k: nat, st: ScanState)
    requires k <= |tags|
  {
    LatestInv(f, tags, k, st) && ZeroInv(f, tags, k, st) && CandidateInv(f, tags, k, st)
  }

  lemma EmptyMap<K, V>(m: map<K, V>)
    ensures |m| == 0 <==> forall k :: k !in m
  {
    if k :| k in m {
      assert k in m.Keys;
    }
  }

  /** A counted tag before `k` when not every valid tag was set aside. */
  lemma LoudWitness(f: Filter, tags: seq<Tag>, k: nat) returns (j: nat)
    requires k <= |tags| && !Quiet(f, tags, k)
    ensures j < k && Counted(f, tags, j)
  {
    j :| 0 <= j < k && f.valid(tags[j].name) && !(f.variant == Library && f.prerelease(tags[j].name));
  }

  /** While quiet, no tag has been counted. */
  lemma QuietCountsNothing(f: Filter, tags: seq<Tag>, k: nat, j: nat)
    requires k <= |tags| && Quiet(f, tags, k) && j < k
    ensures !Counted(f, tags, j)
  {
    assert Quiet(f, tags, j);
  }

  /** The pre-release test in the loop body: both maps are empty at position `k`
      exactly when every valid tag before `k` was a pre-release set aside. */
  lemma QuietWhenEmpty(f: Filter, tags: seq<Tag>, k: nat, st: ScanState)
    requires k <= |tags|
    requires LatestInv(f, tags, k, st) && ZeroInv(f, tags, k, st)
    ensures (|st.latest| == 0 && |st.zero| == 0) <==> Quiet(f, tags, k)
  {
    EmptyMap(st.latest);
    EmptyMap(st.zero);
    if Quiet(f, tags, k) {
      forall j | 0 <= j < k ensures !Counted(f, tags, j) {
        QuietCountsNothing(f, tags, k, j);
      }
    } else {
      var j := LoudWitness(f, tags, k);
      assert HasLine(f, tags, k, Line(f, tags, j));
    }
  }

  /** Tag `k` is counted exactly when the loop body enters it into the maps. */
  lemma CountedAtStep(f: Filter, tags: seq<Tag>, k: nat, st: ScanState)
    requires k < |tags|
    requires LatestInv(f, tags, k, st) && ZeroInv(f, tags, k, st)
    ensures Counted(f, tags, k) <==>
      f.valid(tags[k].name) && !(f.variant == Library && f.prerelease(tags[k].name) && |st.latest| == 0 && |st.zero| == 0)
  {
    QuietWhenEmpty(f, tags, k, st);
  }

  lemma ExtendHasLine(f: Filter, tags: seq<Tag>, k: nat, mm: string)
    requires k < |tags|
    ensures HasLine(f, tags, k + 1, mm) <==> HasLine(f, tags, k, mm) || (Counted(f, tags, k) && Line(f, tags, k) == mm)
  {
    if HasLine(f, tags, k + 1, mm) && !(Counted(f, tags, k) && Line(f, tags, k) == mm) {
      var j :| 0 <= j < k + 1 && Counted(f, tags, j) && Line(f, tags, j) == mm;
      assert j < k;
    }
  }

  lemma ExtendHasZero(f: Filter, tags: seq<Tag>, k: nat, mm: string)
    requires k < |tags|
    ensures HasZero(f, tags, k + 1, mm) <==>
      HasZero(f, tags, k, mm) || (Counted(f, tags, k) && Line(f, tags, k) == mm && f.patch(tags[k].name) == "0")
  {
    if HasZero(f, tags, k + 1, mm) && !(Counted(f, tags, k) && Line(f, tags, k) == mm && f.patch(tags[k].name) == "0") {
      var j :| 0 <= j < k + 1 && Counted(f, tags, j) && Line(f, tags, j) == mm && f.patch(tags[j].name) == "0";
      assert j < k;
    }
  }

  /** A tag of another line, an uncounted one, or one not greater leaves a line's
      latest tag alone. */
  lemma ExtendLatestOf(f: Filter, tags: seq<Tag>, k: nat, mm: string, l: nat)
    requires k < |tags| && LatestOf(f, tags, k, mm, l)
    requires !(Counted(f, tags, k) && Line(f, tags, k) == mm) || f.compare(tags[l].name, tags[k].name) >= 0
    ensures LatestOf(f, tags, k + 1, mm, l)
  {
  }

  /** The first tag of a line is its latest so far. */
  lemma NewLatestOf(f: Filter, tags: seq<Tag>, k: nat, mm: string)
    requires Lawful(f)
    requires k < |tags| && Counted(f, tags, k) && Line(f, tags, k) == mm && !HasLine(f, tags, k, mm)
    ensures LatestOf(f, tags, k + 1, mm, k)
  {
    PreorderChain(f.compare, tags[k].name, tags[k].name, tags[k].name);
    forall j | 0 <= j < k + 1 && Counted(f, tags, j) && Line(f, tags, j) == mm
      ensures j == k
    {
      if j < k {
        assert HasLine(f, tags, k, mm);
      }
    }
  }

  /** A tag greater than its line's latest becomes the latest. */
  lemma GreaterLatestOf(f: Filter, tags: seq<Tag>, k: nat, mm: string, l: nat)
    requires Lawful(f)
    requires k < |tags| && Counted(f, tags, k) && Line(f, tags, k) == mm && LatestOf(f, tags, k, mm, l)
    requires f.compare(tags[k].name, tags[l].name) > 0
    ensures LatestOf(f, tags, k + 1, mm, k)
  {
    var name := tags[k].name;
    PreorderChain(f.compare, name, name, name);
    forall j | 0 <= j < k && Counted(f, tags, j) && Line(f, tags, j) == mm
      ensures f.compare(name, tags[j].name) > 0
    {
      PreorderChain(f.compare, name, tags[l].name, tags[j].name);
    }
  }

  lemma StepCandidate(f: Filter, tags: seq<Tag>, k: nat, st: ScanState)
    requires k < |tags| && Bounded(st, k)
    requires Describes(f, tags, k, st)
    ensures CandidateInv(f, tags, k + 1, Step(f, tags, k, st))
  {
    QuietWhenEmpty(f, tags, k, st);
  }

  /** How the loop body updates one line's latest tag. */
  lemma StepLatestLine(f: Filter, tags: seq<Tag>, k: nat, st: ScanState, m: string)
    requires Lawful(f)
    requires k < |tags| && Bounded(st, k)
    requires LatestInv(f, tags, k, st) && ZeroInv(f, tags, k, st)
    ensures var r := Step(f, tags, k, st);
      && (m in r.latest <==> HasLine(f, tags, k + 1, m))
      && (m in r.latest ==> LatestOf(f, tags, k + 1, m, r.latest[m]))
  {
    var r := Step(f, tags, k, st);
    CountedAtStep(f, tags, k, st);
    ExtendHasLine(f, tags, k, m);
    var name := tags[k].name;
    if Counted(f, tags, k) && Line(f, tags, k) == m {
      if m !in st.latest {
        assert r.latest == st.latest[m := k];
        NewLatestOf(f, tags, k, m);
      } else if f.compare(name, tags[st.latest[m]].name) > 0 {
        assert r.latest == st.latest[m := k];
        GreaterLatestOf(f, tags, k, m, st.latest[m]);
      } else {
        assert r.latest == st.latest;
        PreorderChain(f.compare, name, tags[st.latest[m]].name, name);
        ExtendLatestOf(f, tags, k, m, st.latest[m]);
      }
    } else {
      assert m in r.latest <==> m in st.latest;
      if m in st.latest {
        assert r.latest[m] == st.latest[m];
        ExtendLatestOf(f, tags, k, m, st.latest[m]);
      }
    }
  }

  lemma StepLatest(f: Filter, tags: seq<Tag>, k: nat, st: ScanState)
    requires Lawful(f)
    requires k < |tags| && Bounded(st, k)
    requires Describes(f, tags, k, st)
    ensures LatestInv(f, tags, k + 1, Step(f, tags, k, st))
  {
    forall m
      ensures var r := Step(f, tags, k, st);
        && (m in r.latest <==> HasLine(f, tags, k + 1, m))
        && (m in r.latest ==> LatestOf(f, tags, k + 1, m, r.latest[m]))
    {
      StepLatestLine(f, tags, k, st, m);
    }
  }

  /** How the loop body updates one line's ".0" tag. */
  lemma StepZeroLine(f: Filter, tags: seq<Tag>, k: nat, st: ScanState, m: string)
    requires k < |tags| && Bounded(st, k)
    requires LatestInv(f, tags, k, st) && ZeroInv(f, tags, k, st)
    ensures var r := Step(f, tags, k, st);
      && (m in r.zero <==> HasZero(f, tags, k + 1, m))
      && (m in r.zero ==> ZeroOf(f, tags, k + 1, m, r.zero[m]))
  {
    var r := Step(f, tags, k, st);
    CountedAtStep(f, tags, k, st);
    ExtendHasZero(f, tags, k, m);
    if Counted(f, tags, k) && Line(f, tags, k) == m && f.patch(tags[k].name) == "0" {
      assert r.zero == st.zero[m := k];
    } else {
      assert m in r.zero <==> m in st.zero;
      if m in st.zero {
        assert r.zero[m] == st.zero[m];
      }
    }
  }

  lemma StepZero(f: Filter, tags: seq<Tag>, k: nat, st: ScanState)
    requires k < |tags| && Bounded(st, k)
    requires Describes(f, tags, k, st)
    ensures ZeroInv(f, tags, k + 1, Step(f, tags, k, st))
  {
    forall m
      ensures var r := Step(f, tags, k, st);
        && (m in r.zero <==> HasZero(f, tags, k + 1, m))
        && (m in r.zero ==> ZeroOf(f, tags, k + 1, m, r.zero[m]))
    {
      StepZeroLine(f, tags, k, st, m);
    }
  }

  /** The loop keeps, for every line, the first greatest tag and the last ".0" tag
      seen so far, and the first pre-release met while both maps were empty. */
  lemma {:induction false} RunDescribed(f: Filter, tags: seq<Tag>, k: nat)
    requires Lawful(f)
    requires k <= |tags|
    ensures Describes(f, tags, k, Run(f, tags, k))
  {
    if k > 0 {
      var st := Run(f, tags, k - 1);
      RunDescribed(f, tags, k - 1);
      StepCandidate(f, tags, k - 1, st);
      StepLatest(f, tags, k - 1, st);
      StepZero(f, tags, k - 1, st);
    }
  }

  // The result: the captured pre-release, then every line's entries, sorted.

  /** Whether the ".0" tag `z` is added besides the latest tag `l` of its line: the
      library compares tag elements, the command compares names. */
  predicate Differs(f: Filter, tags: seq<Tag>, z: nat, l: nat)
    requires z < |tags| && l < |tags|
  {
    if f.variant == Library then z != l else tags[z].name != tags[l].name
  }

  /** What the result loop adds for line `mm`: its latest tag, then its ".0" tag when
      that differs. */
  function LineEntries(f: Filter, tags: seq<Tag>, st: ScanState, mm: string): seq<nat>
    requires Bounded(st, |tags|)
  {
    if mm !in st.latest then []
    else if mm in st.zero && Differs(f, tags, st.zero[mm], st.latest[mm]) then [st.latest[mm], st.zero[mm]]
    else [st.latest[mm]]
  }

  /** The result loop visiting the lines in the order `keys` lists them (Go leaves the
      map's order unspecified; see `AnyLineOrder`). */
  function CollectByKeys(f: Filter, tags: seq<Tag>, st: ScanState, keys: seq<string>): (ids: seq<nat>)
    requires Bounded(st, |tags|)
    ensures forall i :: 0 <= i < |ids| ==> ids[i] < |tags|
  {
    if |keys| == 0 then [] else LineEntries(f, tags, st, keys[0]) + CollectByKeys(f, tags, st, keys[1..])
  }

  /** The lines of `st.latest` listed by the position of their latest tag. */
  function LinesInOrder(f: Filter, tags: seq<Tag>, st: ScanState, i: nat): seq<string>
    requires i <= |tags|
    decreases |tags| - i
  {
    if i == |tags| then []
    else
      var mm := Line(f, tags, i);
      (if mm in st.latest && st.latest[mm] == i then [mm] else []) + LinesInOrder(f, tags, st, i + 1)
  }

  /** The positions of the result before sorting. */
  function Collected(f: Filter, tags: seq<Tag>, st: ScanState): (ids: seq<nat>)
    requires Bounded(st, |tags|)
    ensures forall i :: 0 <= i < |ids| ==> ids[i] < |tags|
  {
    (if st.candidate.Some? then [st.candidate.value] else []) + CollectByKeys(f, tags, st, LinesInOrder(f, tags, st, 0))
  }

  function TagsAt(tags: seq<Tag>, ids: seq<nat>): (r: seq<Tag>)
    requires forall i :: 0 <= i < |ids| ==> ids[i] < |tags|
    ensures |r| == |ids|
    ensures forall i :: 0 <= i < |ids| ==> r[i] == tags[ids[i]]
  {
    seq(|ids|, i requires 0 <= i < |ids| => tags[ids[i]])
  }

  /** The sort's test: `a` may come before `b` when its version is not below `b`'s. */
  function NotBelow(f: Filter): (Tag, Tag) -> bool {
    (a: Tag, b: Tag) => f.compare(a.name, b.name) >= 0
  }

  /** The positions the filter returns, for input `tags` and limit `last`. */
  function FinalPositions(f: Filter, tags: seq<Tag>, last: int): (ids: seq<nat>)
    ensures forall i :: 0 <= i < |ids| ==> ids[i] < |tags|
  {
    Collected(f, tags, Scan(f, tags, last, 0, Start))
  }

  /** `filterFeatureReleases` with the given operations: the collected tags, sorted
      from the greatest version down. */
  function FilterWith(f: Filter, tags: seq<Tag>, last: int): (r: seq<Tag>)
    ensures multiset(r) == multiset(TagsAt(tags, FinalPositions(f, tags, last)))
  {
    SortBy(TagsAt(tags, FinalPositions(f, tags, last)), NotBelow(f))
  }

  /** `filterFeatureReleases` of the library (util/candidates) or of the command
      (cmd/refcandidates). */
  function FilterFeatureReleases(v: Variant, tags: seq<Tag>, last: int): seq<Tag> {
    FilterWith(if v == Library then LibraryFilter else CliFilter, tags, last)
  }

  /** Every returned tag is one of the input tags. */
  lemma FilterKeepsTags(v: Variant, tags: seq<Tag>, last: int)
    ensures forall t :: t in FilterFeatureReleases(v, tags, last) ==> t in tags
  {
    var f := if v == Library then LibraryFilter else CliFilter;
    var picked := TagsAt(tags, FinalPositions(f, tags, last));
    forall t | t in FilterFeatureReleases(v, tags, last) ensures t in tags {
      assert t in multiset(picked);
      var i :| 0 <= i < |picked| && picked[i] == t;
    }
  }

  lemma NotBelowTotal(f: Filter)
    requires Lawful(f)
    ensures TotalPreorder(NotBelow(f))
  {
    var le := NotBelow(f);
    forall a: Tag, b: Tag ensures le(a, b) || le(b, a) {
      PreorderChain(f.compare, a.name, b.name, b.name);
    }
    forall a: Tag, b: Tag, c: Tag | le(a, b) && le(b, c) ensures le(a, c) {
      assert f.compare(a.name, b.name) >= 0 && f.compare(b.name, c.name) >= 0;
    }
  }

  /** The result is in non-increasing version order. */
  lemma FilterSorted(f: Filter, tags: seq<Tag>, last: int)
    requires Lawful(f)
    ensures SortedBy(FilterWith(f, tags, last), NotBelow(f))
  {
    NotBelowTotal(f);
    SortByIsSorted(TagsAt(tags, FinalPositions(f, tags, last)), NotBelow(f));
  }

  /** With `last` zero the loop leaves before the first tag: nothing is returned, not
      even a pre-release. */
  lemma NothingWhenLastIsZero(f: Filter, tags: seq<Tag>)
    ensures FilterWith(f, tags, 0) == []
  {
    assert Scan(f, tags, 0, 0, Start) == Start;
    LinesInOrderOfNothing(f, tags, 0);
  }

  lemma {:induction false} LinesInOrderOfNothing(f: Filter, tags: seq<Tag>, i: nat)
    requires i <= |tags|
    ensures LinesInOrder(f, tags, Start, i) == []
    decreases |tags| - i
  {
    if i < |tags| {
      LinesInOrderOfNothing(f, tags, i + 1);
    }
  }

  // Membership of the result.

  /** The state's positions are tags of the line they are filed under. */
  ghost predicate Keyed(f: Filter, tags: seq<Tag>, st: ScanState) {
    && Bounded(st, |tags|)
    && (forall mm :: mm in st.latest ==> Line(f, tags, st.latest[mm]) == mm)
    && (forall mm :: mm in st.zero ==> Line(f, tags, st.zero[mm]) == mm)
  }

  /** Moreover, latest and ".0" tags are counted, and the captured pre-release is not. */
  ghost predicate Consistent(f: Filter, tags: seq<Tag>, st: ScanState) {
    && Keyed(f, tags, st)
    && (forall mm :: mm in st.latest ==> Counted(f, tags, st.latest[mm]))
    && (forall mm :: mm in st.zero ==> Counted(f, tags, st.zero[mm]))
    && (st.candidate.Some? ==> !Counted(f, tags, st.candidate.value))
  }

  lemma DescribedIsConsistent(f: Filter, tags: seq<Tag>, k: nat, st: ScanState)
    requires k <= |tags| && Bounded(st, k) && Describes(f, tags, k, st)
    ensures Consistent(f, tags, st)
  {
  }

  lemma {:induction false} CollectByKeysMembers(f: Filter, tags: seq<Tag>, st: ScanState, keys: seq<string>, x: nat)
    requires Bounded(st, |tags|)
    ensures x in CollectByKeys(f, tags, st, keys) <==> exists m :: m in keys && x in LineEntries(f, tags, st, m)
  {
    if |keys| > 0 {
      CollectByKeysMembers(f, tags, st, keys[1..], x);
      assert forall m :: m in keys <==> m == keys[0] || m in keys[1..];
    }
  }

  lemma {:induction false} LinesInOrderMembers(f: Filter, tags: seq<Tag>, st: ScanState, i: nat, m: string)
    requires i <= |tags| && Keyed(f, tags, st)
    ensures m in LinesInOrder(f, tags, st, i) <==> m in st.latest && st.latest[m] >= i
    decreases |tags| - i
  {
    if i < |tags| {
      LinesInOrderMembers(f, tags, st, i + 1, m);
    }
  }

  lemma {:induction false} LinesInOrderDistinct(f: Filter, tags: seq<Tag>, st: ScanState, i: nat)
    requires i <= |tags| && Keyed(f, tags, st)
    ensures NoDuplicates(LinesInOrder(f, tags, st, i))
    decreases |tags| - i
  {
    if i < |tags| {
      LinesInOrderDistinct(f, tags, st, i + 1);
      var mm := Line(f, tags, i);
      LinesInOrderMembers(f, tags, st, i + 1, mm);
      NoDuplicatesAppend(if mm in st.latest && st.latest[mm] == i then [mm] else [], LinesInOrder(f, tags, st, i + 1));
    }
  }

  lemma LatestOfUnique(f: Filter, tags: seq<Tag>, k: nat, mm: string, a: nat, b: nat)
    requires Lawful(f) && k <= |tags|
    requires LatestOf(f, tags, k, mm, a) && LatestOf(f, tags, k, mm, b)
    ensures a == b
  {
    PreorderChain(f.compare, tags[a].name, tags[b].name, tags[b].name);
  }

  lemma ZeroOfUnique(f: Filter, tags: seq<Tag>, k: nat, mm: string, a: nat, b: nat)
    requires k <= |tags|
    requires ZeroOf(f, tags, k, mm, a) && ZeroOf(f, tags, k, mm, b)
    ensures a == b
  {
  }

  /** Which positions the result holds, per position: the first pre-release set aside,
      the first greatest counted tag of each line, and the last counted ".0" tag of a
      line when it differs from that line's latest. */
  ghost predicate Selected(f: Filter, tags: seq<Tag>, k: nat, i: nat)
    requires k <= |tags| && i < |tags|
  {
    || FirstSkipped(f, tags, k, i)
    || LatestOf(f, tags, k, Line(f, tags, i), i)
    || (&& ZeroOf(f, tags, k, Line(f, tags, i), i)
        && exists l :: LatestOf(f, tags, k, Line(f, tags, i), l) && Differs(f, tags, i, l))
  }

  /** The entries filed under line `m` are tags of line `m`. */
  lemma EntriesOfLine(f: Filter, tags: seq<Tag>, st: ScanState, m: string, x: nat)
    requires Keyed(f, tags, st) && x in LineEntries(f, tags, st, m)
    ensures x < |tags| && Line(f, tags, x) == m
  {
  }

  lemma CollectedByLine(f: Filter, tags: seq<Tag>, st: ScanState, x: nat)
    requires Keyed(f, tags, st) && x < |tags|
    ensures x in CollectByKeys(f, tags, st, LinesInOrder(f, tags, st, 0)) <==> x in LineEntries(f, tags, st, Line(f, tags, x))
  {
    var keys := LinesInOrder(f, tags, st, 0);
    var mm := Line(f, tags, x);
    CollectByKeysMembers(f, tags, st, keys, x);
    if x in CollectByKeys(f, tags, st, keys) {
      var m :| m in keys && x in LineEntries(f, tags, st, m);
      EntriesOfLine(f, tags, st, m, x);
    } else if x in LineEntries(f, tags, st, mm) {
      LinesInOrderMembers(f, tags, st, 0, mm);
    }
  }

  /** Where a position of the collection comes from: the captured pre-release, or the
      entries of its own line. */
  lemma CollectedFrom(f: Filter, tags: seq<Tag>, st: ScanState, x: nat)
    requires Keyed(f, tags, st) && x < |tags|
    ensures x in Collected(f, tags, st) <==>
      st.candidate == Some(x) || x in LineEntries(f, tags, st, Line(f, tags, x))
  {
    CollectedByLine(f, tags, st, x);
  }

  lemma EntriesAreSelected(f: Filter, tags: seq<Tag>, k: nat, st: ScanState, x: nat)
    requires k <= |tags| && x < |tags|
    requires Bounded(st, k) && Describes(f, tags, k, st)
    requires st.candidate == Some(x) || x in LineEntries(f, tags, st, Line(f, tags, x))
    ensures Selected(f, tags, k, x)
  {
    var mm := Line(f, tags, x);
    if st.candidate != Some(x) {
      if x == st.latest[mm] {
        assert LatestOf(f, tags, k, mm, x);
      } else {
        assert ZeroOf(f, tags, k, mm, x) && LatestOf(f, tags, k, mm, st.latest[mm]);
      }
    }
  }

  lemma LatestIsEntry(f: Filter, tags: seq<Tag>, k: nat, st: ScanState, x: nat)
    requires Lawful(f) && k <= |tags| && x < |tags|
    requires Bounded(st, k) && LatestInv(f, tags, k, st)
    requires LatestOf(f, tags, k, Line(f, tags, x), x)
    ensures Line(f, tags, x) in st.latest && st.latest[Line(f, tags, x)] == x
  {
    var mm := Line(f, tags, x);
    assert HasLine(f, tags, k, mm);
    LatestOfUnique(f, tags, k, mm, x, st.latest[mm]);
  }

  lemma ZeroIsEntry(f: Filter, tags: seq<Tag>, k: nat, st: ScanState, x: nat)
    requires k <= |tags| && x < |tags|
    requires Bounded(st, k) && ZeroInv(f, tags, k, st)
    requires ZeroOf(f, tags, k, Line(f, tags, x), x)
    ensures Line(f, tags, x) in st.zero && st.zero[Line(f, tags, x)] == x
  {
    var mm := Line(f, tags, x);
    assert HasZero(f, tags, k, mm);
    ZeroOfUnique(f, tags, k, mm, x, st.zero[mm]);
  }

  lemma SelectedAreEntries(f: Filter, tags: seq<Tag>, k: nat, st: ScanState, x: nat)
    requires Lawful(f) && k <= |tags| && x < |tags|
    requires Bounded(st, k) && LatestInv(f, tags, k, st) && ZeroInv(f, tags, k, st) && CandidateInv(f, tags, k, st)
    requires Selected(f, tags, k, x)
    ensures st.candidate == Some(x) || x in LineEntries(f, tags, st, Line(f, tags, x))
  {
    var mm := Line(f, tags, x);
    if !FirstSkipped(f, tags, k, x) {
      if LatestOf(f, tags, k, mm, x) {
        LatestIsEntry(f, tags, k, st, x);
      } else {
        var l :| LatestOf(f, tags, k, mm, l) && Differs(f, tags, x, l);
        ZeroIsEntry(f, tags, k, st, x);
        LatestIsEntry(f, tags, k, st, l);
      }
    }
  }

  /** A position is in the result exactly when it is selected, judged over the tags
      before the loop's exit. */
  lemma ResultMembers(f: Filter, tags: seq<Tag>, last: int, x: nat)
    requires Lawful(f) && x < |tags|
    ensures x in FinalPositions(f, tags, last) <==> Selected(f, tags, StopFrom(f, tags, last, 0), x)
  {
    var k := StopFrom(f, tags, last, 0);
    ScanStopsAtFirstFull(f, tags, last, 0);
    RunDescribed(f, tags, k);
    var st := Run(f, tags, k);
    DescribedIsConsistent(f, tags, k, st);
    CollectedFrom(f, tags, st, x);
    if st.candidate == Some(x) || x in LineEntries(f, tags, st, Line(f, tags, x)) {
      EntriesAreSelected(f, tags, k, st, x);
    }
    if Selected(f, tags, k, x) {
      SelectedAreEntries(f, tags, k, st, x);
    }
  }

  lemma {:induction false} CollectByKeysDistinct(f: Filter, tags: seq<Tag>, st: ScanState, keys: seq<string>)
    requires Consistent(f, tags, st) && NoDuplicates(keys)
    ensures NoDuplicates(CollectByKeys(f, tags, st, keys))
    ensures forall x :: x in CollectByKeys(f, tags, st, keys) ==> Counted(f, tags, x) && Line(f, tags, x) in keys
  {
    if |keys| > 0 {
      var here := LineEntries(f, tags, st, keys[0]);
      var rest := CollectByKeys(f, tags, st, keys[1..]);
      assert NoDuplicates(keys[1..]);
      CollectByKeysDistinct(f, tags, st, keys[1..]);
      assert forall x :: x in here ==> Line(f, tags, x) == keys[0];
      assert keys[0] !in keys[1..];
      NoDuplicatesAppend(here, rest);
    }
  }

  /** Every tag element appears at most once in the result. */
  lemma ResultDistinct(f: Filter, tags: seq<Tag>, last: int)
    requires Lawful(f)
    ensures NoDuplicates(FinalPositions(f, tags, last))
  {
    var k := StopFrom(f, tags, last, 0);
    ScanStopsAtFirstFull(f, tags, last, 0);
    RunDescribed(f, tags, k);
    var st := Run(f, tags, k);
    DescribedIsConsistent(f, tags, k, st);
    LinesInOrderDistinct(f, tags, st, 0);
    CollectByKeysDistinct(f, tags, st, LinesInOrder(f, tags, st, 0));
    NoDuplicatesAppend(if st.candidate.Some? then [st.candidate.value] else [], CollectByKeys(f, tags, st, LinesInOrder(f, tags, st, 0)));
  }

  /** A line the loop has a ".0" tag for also has a latest tag (the ".0" tag itself
      competes for it), so no ".0" tag is lost by the result loop. */
  lemma ZeroLinesHaveLatest(f: Filter, tags: seq<Tag>, last: int, mm: string)
    requires Lawful(f)
    requires mm in Scan(f, tags, last, 0, Start).zero
    ensures mm in Scan(f, tags, last, 0, Start).latest
  {
    var k := StopFrom(f, tags, last, 0);
    ScanStopsAtFirstFull(f, tags, last, 0);
    RunDescribed(f, tags, k);
    var j :| 0 <= j < k && Counted(f, tags, j) && Line(f, tags, j) == mm && f.patch(tags[j].name) == "0";
    assert HasLine(f, tags, k, mm);
  }

  lemma {:induction false} CollectByKeysAppend(f: Filter, tags: seq<Tag>, st: ScanState, a: seq<string>, b: seq<string>)
    requires Bounded(st, |tags|)
    ensures CollectByKeys(f, tags, st, a + b) == CollectByKeys(f, tags, st, a) + CollectByKeys(f, tags, st, b)
  {
    if |a| == 0 {
      assert a + b == b;
    } else {
      assert (a + b)[1..] == a[1..] + b;
      CollectByKeysAppend(f, tags, st, a[1..], b);
    }
  }

  /** Taking out the element at `p`. */
  lemma RemoveAt<T>(b: seq<T>, p: nat)
    requires p < |b|
    ensures b == b[..p] + ([b[p]] + b[p + 1..])
    ensures multiset(b[..p] + b[p + 1..]) == multiset(b) - multiset{b[p]}
  {
    assert b == b[..p] + [b[p]] + b[p + 1..];
  }

  /** The entries of the line at `p` can be taken out of the collection. */
  lemma CollectByKeysRemoveAt(f: Filter, tags: seq<Tag>, st: ScanState, b: seq<string>, p: nat)
    requires Bounded(st, |tags|) && p < |b|
    ensures multiset(CollectByKeys(f, tags, st, b))
         == multiset(LineEntries(f, tags, st, b[p])) + multiset(CollectByKeys(f, tags, st, b[..p] + b[p + 1..]))
  {
    RemoveAt(b, p);
    CollectByKeysAppend(f, tags, st, b[..p], [b[p]] + b[p + 1..]);
    CollectByKeysAppend(f, tags, st, [b[p]], b[p + 1..]);
    CollectByKeysAppend(f, tags, st, b[..p], b[p + 1..]);
    assert CollectByKeys(f, tags, st, [b[p]]) == LineEntries(f, tags, st, b[p]);
  }

  lemma {:induction false} CollectByKeysPermutation(f: Filter, tags: seq<Tag>, st: ScanState, a: seq<string>, b: seq<string>)
    requires Bounded(st, |tags|)
    requires multiset(a) == multiset(b)
    ensures multiset(CollectByKeys(f, tags, st, a)) == multiset(CollectByKeys(f, tags, st, b))
    decreases |a|
  {
    if |a| > 0 {
      var m := a[0];
      assert m in multiset(b);
      var p :| 0 <= p < |b| && b[p] == m;
      RemoveAt(b, p);
      assert a == [m] + a[1..];
      assert multiset(a[1..]) == multiset(a) - multiset{m};
      CollectByKeysPermutation(f, tags, st, a[1..], b[..p] + b[p + 1..]);
      CollectByKeysRemoveAt(f, tags, st, b, p);
    }
  }

  /** Go visits the map's lines in an unspecified order; every order collects the same
      positions, so after sorting only tags of equal version can trade places. */
  lemma AnyLineOrder(f: Filter, tags: seq<Tag>, last: int, keys: seq<string>)
    requires Lawful(f)
    requires NoDuplicates(keys)
    requires forall m :: m in keys <==> m in Scan(f, tags, last, 0, Start).latest
    ensures var st := Scan(f, tags, last, 0, Start);
      multiset((if st.candidate.Some? then [st.candidate.value] else []) + CollectByKeys(f, tags, st, keys))
      == multiset(FinalPositions(f, tags, last))
  {
    var k := StopFrom(f, tags, last, 0);
    ScanStopsAtFirstFull(f, tags, last, 0);
    RunDescribed(f, tags, k);
    var st := Run(f, tags, k);
    DescribedIsConsistent(f, tags, k, st);
    var inOrder := LinesInOrder(f, tags, st, 0);
    LinesInOrderDistinct(f, tags, st, 0);
    forall m ensures m in keys <==> m in inOrder {
      LinesInOrderMembers(f, tags, st, 0, m);
    }
    SameElementsSameMultiset(keys, inOrder);
    CollectByKeysPermutation(f, tags, st, keys, inOrder);
  }

  // The worked example.

  /** The tag name `vA.B.C` of a release. */
  function ReleaseName(a: string, b: string, c: string): string {
    "v" + a + "." + b + "." + c
  }

  /** The release line `vA.B`. */
  function LineName(a: string, b: string): string {
    "v" + a + "." + b
  }

  const V200 := ReleaseName("2", "0", "0")
  const V152 := ReleaseName("1", "5", "2")
  const V150 := ReleaseName("1", "5", "0")
  const V143 := ReleaseName("1", "4", "3")
  const ExampleTags := [Tag(V200, "c0"), Tag(V152, "c1"), Tag(V150, "c2"), Tag(V143, "c3")]

  /** What the worked example needs of the version operations. */
  ghost predicate ExampleOps(f: Filter) {
    && f.valid(V200) && f.valid(V152) && f.valid(V150)
    && !f.prerelease(V200) && !f.prerelease(V152) && !f.prerelease(V150)
    && f.majorMinor(V200) == LineName("2", "0") && f.majorMinor(V152) == LineName("1", "5")
    && f.majorMinor(V150) == LineName("1", "5") && f.majorMinor(V143) == LineName("1", "4")
    && f.patch(V200) == "0" && f.patch(V152) == "2" && f.patch(V150) == "0"
    && f.compare(V150, V152) < 0 && f.compare(V152, V150) > 0 && f.compare(V200, V152) > 0
  }

  lemma ExampleNamesDiffer()
    ensures LineName("2", "0") != LineName("1", "5")
    ensures LineName("1", "4") != LineName("2", "0") && LineName("1", "4") != LineName("1", "5")
    ensures V152 != V150
  {
    assert LineName("2", "0")[1] != LineName("1", "5")[1];
    assert LineName("1", "4")[1] != LineName("2", "0")[1];
    assert LineName("1", "4")[3] != LineName("1", "5")[3];
    assert V152[5] != V150[5];
  }

  lemma ExampleScan(f: Filter)
    requires ExampleOps(f)
    ensures StopFrom(f, ExampleTags, 2, 0) == 3
    ensures Run(f, ExampleTags, 3)
         == ScanState(None, map[LineName("2", "0") := 0, LineName("1", "5") := 1],
                            map[LineName("2", "0") := 0, LineName("1", "5") := 2])
  {
    var tags := ExampleTags;
    var l20, l15 := LineName("2", "0"), LineName("1", "5");
    ExampleNamesDiffer();
    var s1 := ScanState(None, map[l20 := 0], map[l20 := 0]);
    var s2 := ScanState(None, map[l20 := 0, l15 := 1], map[l20 := 0]);
    var s3 := ScanState(None, map[l20 := 0, l15 := 1], map[l20 := 0, l15 := 2]);
    assert tags[0].name == V200 && tags[1].name == V152 && tags[2].name == V150;
    assert Run(f, tags, 1) == Step(f, tags, 0, Start) == s1;
    assert Run(f, tags, 2) == Step(f, tags, 1, s1) == s2;
    assert Run(f, tags, 3) == Step(f, tags, 2, s2) == s3;
    assert |s1.latest| == 1 && |s2.latest| == 2 && |s2.zero| == 1 && |s3.zero| == 2;
    assert StopFrom(f, tags, 2, 2) == 3;
    assert StopFrom(f, tags, 2, 1) == 3;
  }

  lemma ExampleLineOrder(f: Filter)
    requires ExampleOps(f)
    ensures LinesInOrder(f, ExampleTags, Run(f, ExampleTags, 3), 0) == [LineName("2", "0"), LineName("1", "5")]
  {
    var tags := ExampleTags;
    var l20, l15 := LineName("2", "0"), LineName("1", "5");
    ExampleNamesDiffer();
    ExampleScan(f);
    var st := Run(f, tags, 3);
    assert Line(f, tags, 3) == LineName("1", "4") && Line(f, tags, 2) == l15;
    assert Line(f, tags, 1) == l15 && Line(f, tags, 0) == l20;
    assert LinesInOrder(f, tags, st, 3) == [];
    assert LinesInOrder(f, tags, st, 2) == [];
    assert LinesInOrder(f, tags, st, 1) == [l15];
  }

  lemma ExampleLines(f: Filter)
    requires ExampleOps(f)
    ensures FinalPositions(f, ExampleTags, 2) == [0, 1, 2]
  {
    var tags := ExampleTags;
    var l20, l15 := LineName("2", "0"), LineName("1", "5");
    ExampleNamesDiffer();
    ExampleScan(f);
    ExampleLineOrder(f);
    ScanStopsAtFirstFull(f, tags, 2, 0);
    var st := Run(f, tags, 3);
    assert Scan(f, tags, 2, 0, Start) == st;
    assert LineEntries(f, tags, st, l15) == [1, 2];
    assert LineEntries(f, tags, st, l20) == [0];
    assert CollectByKeys(f, tags, st, [l15]) == [1, 2];
    assert CollectByKeys(f, tags, st, [l20, l15]) == [0, 1, 2];
  }

  lemma ExampleResult(f: Filter)
    requires ExampleOps(f)
    ensures FilterWith(f, ExampleTags, 2) == ExampleTags[..3]
  {
    var tags := ExampleTags;
    ExampleLines(f);
    var picked := TagsAt(tags, [0, 1, 2]);
    assert picked == tags[..3];
    var le := NotBelow(f);
    assert SortBy(picked[2..], le) == [tags[2]];
    assert SortBy(picked[1..], le) == [tags[1], tags[2]];
  }

  /** What the semver operations report on one release `vA.B.C`. */
  lemma ExampleRelease(a: string, b: string, c: string)
    requires Semver.IsCanonicalNumeral(a) && Semver.IsCanonicalNumeral(b) && Semver.IsCanonicalNumeral(c)
    ensures var v := ReleaseName(a, b, c);
      && Semver.IsValid(v) && !Semver.IsPrerelease(v)
      && Semver.MajorMinor(v) == LineName(a, b) && Semver.PatchVersion(v) == c
  {
    Semver.ReleaseFacts(a, b, c);
  }

  lemma ExampleParsed(a: string, b: string, c: string)
    requires Semver.IsCanonicalNumeral(a) && Semver.IsCanonicalNumeral(b) && Semver.IsCanonicalNumeral(c)
    ensures Semver.Parse(ReleaseName(a, b, c))
         == Some(Semver.Version(a, b, Strings.DigitsValue(a), Strings.DigitsValue(b), Strings.DigitsValue(c), []))
  {
    Semver.ParseRelease(a, b, c);
  }

  lemma ExampleDigits()
    ensures Strings.DigitsValue("0") == 0 && Strings.DigitsValue("1") == 1
    ensures Strings.DigitsValue("2") == 2 && Strings.DigitsValue("5") == 5
  {
  }

  lemma ExampleCompares()
    ensures Semver.Compare(V150, V152) < 0 && Semver.Compare(V152, V150) > 0
    ensures Semver.Compare(V200, V152) > 0
  {
    ExampleDigits();
    ExampleParsed("2", "0", "0");
    ExampleParsed("1", "5", "2");
    ExampleParsed("1", "5", "0");
    Semver.CompareParsed(V150, V152, Semver.Version("1", "5", 1, 5, 0, []), Semver.Version("1", "5", 1, 5, 2, []));
    Semver.CompareParsed(V152, V150, Semver.Version("1", "5", 1, 5, 2, []), Semver.Version("1", "5", 1, 5, 0, []));
    Semver.CompareParsed(V200, V152, Semver.Version("2", "0", 2, 0, 0, []), Semver.Version("1", "5", 1, 5, 2, []));
  }

  /** The semver operations as a filter's fields. */
  ghost predicate SemverOps(f: Filter) {
    && f.valid == Semver.IsValid && f.prerelease == Semver.IsPrerelease
    && f.majorMinor == Semver.MajorMinor && f.patch == Semver.PatchVersion
    && f.compare == Semver.Compare
  }

  lemma SemverOpsOn(f: Filter, a: string, b: string, c: string)
    requires SemverOps(f)
    requires Semver.IsCanonicalNumeral(a) && Semver.IsCanonicalNumeral(b) && Semver.IsCanonicalNumeral(c)
    ensures var v := ReleaseName(a, b, c);
      && f.valid(v) && !f.prerelease(v) && f.majorMinor(v) == LineName(a, b) && f.patch(v) == c
  {
    ExampleRelease(a, b, c);
  }

  /** The semver operations answer as the worked example needs. */
  lemma SemverExampleOps(f: Filter)
    requires SemverOps(f)
    ensures ExampleOps(f)
  {
    SemverOpsOn(f, "2", "0", "0");
    SemverOpsOn(f, "1", "5", "2");
    SemverOpsOn(f, "1", "5", "0");
    SemverOpsOn(f, "1", "4", "3");
    ExampleCompares();
  }

  /** The worked example: from the tags v2.0.0, v1.5.2, v1.5.0, v1.4.3 with `last` 2,
      both copies return v2.0.0, v1.5.2, v1.5.0. */
  lemma WorkedExample(v: Variant)
    ensures FilterFeatureReleases(v, ExampleTags, 2) == ExampleTags[..3]
  {
    var f := if v == Library then LibraryFilter else CliFilter;
    SemverExampleOps(f);
    ExampleResult(f);
  }
}
