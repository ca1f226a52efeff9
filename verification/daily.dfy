/** The commit side of candidate selection: keeping the merge commits of a listing and
    picking one commit per calendar day. Both copies of the program run the same two
    loops; they differ only in how a date is represented, so the loops are written once
    over a date type `D`, a day function and an "after" relation. */
module Daily {
  import opened Ordering

  /** A commit of the repository listing: its sha, its committer date and how many
      parents it has. */
  datatype RepoCommit<D> = RepoCommit(sha: string, date: D, parents: nat)

  /** A merge commit has more than one parent. */
  predicate IsMerge<D>(c: RepoCommit<D>) {
    c.parents > 1
  }

  /** `filterMergeCommits`: the merge commits of the listing, in listing order. Every
      merge commit is kept as often as it occurs and nothing else is kept. */
  function FilterMergeCommits<D(==,!new)>(cs: seq<RepoCommit<D>>): (r: seq<RepoCommit<D>>)
    ensures |r| <= |cs|
    ensures forall x :: multiset(r)[x] == if IsMerge(x) then multiset(cs)[x] else 0
  {
    if |cs| == 0 then []
    else
      var rest := FilterMergeCommits(cs[1..]);
      assert cs == [cs[0]] + cs[1..];
      (if IsMerge(cs[0]) then [cs[0]] else []) + rest
  }

  /** The filter runs through the listing front to back: filtering a concatenation
      filters each part and keeps the parts in order. */
  lemma {:induction false} FilterMergeCommitsAppend<D(!new)>(a: seq<RepoCommit<D>>, b: seq<RepoCommit<D>>)
    ensures FilterMergeCommits(a + b) == FilterMergeCommits(a) + FilterMergeCommits(b)
    decreases |a|
  {
    if |a| > 0 {
      var head := if IsMerge(a[0]) then [a[0]] else [];
      assert (a + b)[0] == a[0] && (a + b)[1..] == a[1..] + b;
      assert FilterMergeCommits(a + b) == head + FilterMergeCommits(a[1..] + b);
      FilterMergeCommitsAppend(a[1..], b);
      assert FilterMergeCommits(a) == head + FilterMergeCommits(a[1..]);
    } else {
      assert a + b == b;
    }
  }

  /** Filtering twice is filtering once. */
  lemma {:induction false} FilterMergeCommitsIdempotent<D(!new)>(cs: seq<RepoCommit<D>>)
    ensures FilterMergeCommits(FilterMergeCommits(cs)) == FilterMergeCommits(cs)
    decreases |cs|
  {
    if |cs| > 0 {
      var head := if IsMerge(cs[0]) then [cs[0]] else [];
      var rest := FilterMergeCommits(cs[1..]);
      FilterMergeCommitsIdempotent(cs[1..]);
      FilterMergeCommitsAppend(head, rest);
      assert FilterMergeCommits(head) == head;
    }
  }

  // One commit per day.

  /** Every commit of the listing has a date the day function accepts. */
  ghost predicate Dated<D, K>(cs: seq<RepoCommit<D>>, day: D --> K) {
    forall i :: 0 <= i < |cs| ==> day.requires(cs[i].date)
  }

  /** One turn of `lastCommitByDay`: the commit takes its day's slot when the slot is
      empty or when it is strictly after the commit holding it. */
  function Keep<D, K(==)>(m: map<K, RepoCommit<D>>, c: RepoCommit<D>, day: D --> K, after: (D, D) -> bool): map<K, RepoCommit<D>>
    requires day.requires(c.date)
  {
    var d := day(c.date);
    if d !in m || after(c.date, m[d].date) then m[d := c] else m
  }

  /** `lastCommitByDay`: the loop run over the whole listing. */
  function LastCommitByDay<D, K(==)>(cs: seq<RepoCommit<D>>, day: D --> K, after: (D, D) -> bool): (m: map<K, RepoCommit<D>>)
    requires Dated(cs, day)
    ensures forall d :: d in m ==> day.requires(m[d].date) && day(m[d].date) == d
    decreases |cs|
  {
    if |cs| == 0 then map[]
    else Keep(LastCommitByDay(cs[..|cs| - 1], day, after), cs[|cs| - 1], day, after)
  }

  // Reference definitions, per position of the listing.

  /** Commit `i` of the listing is of day `d`. */
  predicate OnDay<D, K(==)>(cs: seq<RepoCommit<D>>, day: D --> K, d: K, i: int)
    requires Dated(cs, day)
  {
    0 <= i < |cs| && day(cs[i].date) == d
  }

  /** Commit `i` is of day `d` and no commit of that day is after it. */
  ghost predicate LatestOfDay<D, K>(cs: seq<RepoCommit<D>>, day: D --> K, after: (D, D) -> bool, d: K, i: int)
    requires Dated(cs, day)
  {
    OnDay(cs, day, d, i) && forall j :: OnDay(cs, day, d, j) ==> !after(cs[j].date, cs[i].date)
  }

  /** Commit `i` is a latest commit of day `d`, and it is after every commit of that
      day listed before it: the first of the day's latest commits. */
  ghost predicate FirstLatestOfDay<D, K>(cs: seq<RepoCommit<D>>, day: D --> K, after: (D, D) -> bool, d: K, i: int)
    requires Dated(cs, day)
  {
    LatestOfDay(cs, day, after, d, i) && forall j :: 0 <= j < i && OnDay(cs, day, d, j) ==> after(cs[i].date, cs[j].date)
  }

  lemma DatedPrefix<D, K>(cs: seq<RepoCommit<D>>, day: D --> K, n: nat)
    requires Dated(cs, day) && n <= |cs|
    ensures Dated(cs[..n], day)
  {
    assert forall i :: 0 <= i < n ==> cs[..n][i] == cs[i];
  }

  /** A day has a slot exactly when some commit of the listing is of that day. */
  lemma {:induction false} LastCommitByDayKeys<D, K>(cs: seq<RepoCommit<D>>, day: D --> K, after: (D, D) -> bool, d: K)
    requires Dated(cs, day)
    ensures d in LastCommitByDay(cs, day, after) <==> exists i :: OnDay(cs, day, d, i)
    decreases |cs|
  {
    if |cs| > 0 {
      var n := |cs| - 1;
      var p := cs[..n];
      DatedPrefix(cs, day, n);
      LastCommitByDayKeys(p, day, after, d);
      assert d in LastCommitByDay(cs, day, after) <==> d in LastCommitByDay(p, day, after) || day(cs[n].date) == d;
      if exists i :: OnDay(p, day, d, i) {
        var i :| OnDay(p, day, d, i);
        assert OnDay(cs, day, d, i);
      }
      if day(cs[n].date) == d {
        assert OnDay(cs, day, d, n);
      }
      if exists i :: OnDay(cs, day, d, i) {
        var i :| OnDay(cs, day, d, i);
        if i < n {
          assert OnDay(p, day, d, i);
        }
      }
    }
  }

  /** Under a strict weak order (so "neither after the other" is an equivalence), the
      last-day loop keeps the first of the day's latest commits. */
  lemma {:induction false} LastCommitByDayWinner<D(!new), K>(cs: seq<RepoCommit<D>>, day: D --> K, after: (D, D) -> bool, d: K)
    returns (w: nat)
    requires Dated(cs, day) && StrictWeakOrder(after)
    requires d in LastCommitByDay(cs, day, after)
    ensures FirstLatestOfDay(cs, day, after, d, w)
    ensures LastCommitByDay(cs, day, after)[d] == cs[w]
    decreases |cs|
  {
    var n := |cs| - 1;
    var p := cs[..n];
    var c := cs[n];
    DatedPrefix(cs, day, n);
    var prev := LastCommitByDay(p, day, after);
    assert forall j :: 0 <= j < n ==> cs[j] == p[j];
    if day(c.date) != d {
      w := LastCommitByDayWinner(p, day, after, d);
      assert forall j :: OnDay(cs, day, d, j) ==> OnDay(p, day, d, j);
    } else if d !in prev {
      w := n;
      LastCommitByDayKeys(p, day, after, d);
      forall j | OnDay(cs, day, d, j) ensures j == n {
        if j < n {
          assert OnDay(p, day, d, j);
        }
      }
    } else {
      var v := LastCommitByDayWinner(p, day, after, d);
      if after(c.date, cs[v].date) {
        w := n;
        forall j | OnDay(cs, day, d, j) ensures !after(cs[j].date, c.date) {
          if j < n {
            assert OnDay(p, day, d, j);
            assert !after(cs[j].date, cs[v].date);
          }
        }
        forall j | 0 <= j < n && OnDay(cs, day, d, j) ensures after(c.date, cs[j].date) {
          assert OnDay(p, day, d, j);
          assert !after(cs[j].date, cs[v].date);
        }
      } else {
        w := v;
        forall j | OnDay(cs, day, d, j) ensures !after(cs[j].date, cs[w].date) {
          if j < n {
            assert OnDay(p, day, d, j);
          }
        }
        forall j | 0 <= j < w && OnDay(cs, day, d, j) ensures after(cs[w].date, cs[j].date) {
          assert OnDay(p, day, d, j);
        }
      }
    }
  }

  // The two date representations.

  /** The library reads dates as instants and compares them with `After`; the day is the
      instant formatted as "2006-01-02" in its location, which the model takes as a
      parameter. */
  function LibraryLastCommitByDay(cs: seq<RepoCommit<int>>, dayOf: int -> string): (m: map<string, RepoCommit<int>>)
    ensures forall d :: d in m ==> dayOf(m[d].date) == d
  {
    LastCommitByDay(cs, dayOf, InstantAfter)
  }

  /** The command reads dates as RFC 3339 text, takes the first ten characters as the
      day and compares the whole text as strings. Go panics on a shorter date; the
      model asks for ten characters. */
  function CliLastCommitByDay(cs: seq<RepoCommit<string>>): (m: map<string, RepoCommit<string>>)
    requires forall i :: 0 <= i < |cs| ==> |cs[i].date| >= 10
    ensures forall d :: d in m ==> |m[d].date| >= 10 && m[d].date[..10] == d
  {
    LastCommitByDay(cs, CliDay, StrGreater)
  }

  function CliDay(date: string): string
    requires |date| >= 10
  {
    date[..10]
  }

  /** `time.Time.After` on instants. */
  function InstantAfter(a: int, b: int): bool {
    a > b
  }

  lemma InstantAfterIsStrictWeakOrder()
    ensures StrictWeakOrder(InstantAfter)
  {
  }

  /** Commit `w` is of day `d`, no commit of that day has a later instant, and every
      commit of that day listed before `w` has an earlier one. */
  ghost predicate FirstLatestInstant(cs: seq<RepoCommit<int>>, dayOf: int -> string, d: string, w: int) {
    && 0 <= w < |cs| && dayOf(cs[w].date) == d
    && (forall j :: 0 <= j < |cs| && dayOf(cs[j].date) == d ==> cs[j].date <= cs[w].date)
    && (forall j :: 0 <= j < w && dayOf(cs[j].date) == d ==> cs[j].date < cs[w].date)
  }

  /** The same for date text: commit `w`'s date starts with day `d`, no date of that
      day is greater as a string, and every date of that day listed before it is smaller. */
  ghost predicate FirstGreatestDate(cs: seq<RepoCommit<string>>, d: string, w: int) {
    && 0 <= w < |cs| && |cs[w].date| >= 10 && cs[w].date[..10] == d
    && (forall j :: 0 <= j < |cs| && |cs[j].date| >= 10 && cs[j].date[..10] == d ==> StrCmp(cs[j].date, cs[w].date) <= 0)
    && (forall j :: 0 <= j < w && |cs[j].date| >= 10 && cs[j].date[..10] == d ==> StrCmp(cs[w].date, cs[j].date) > 0)
  }

  lemma FirstLatestInstantUnique(cs: seq<RepoCommit<int>>, dayOf: int -> string, d: string, v: int, w: int)
    requires FirstLatestInstant(cs, dayOf, d, v) && FirstLatestInstant(cs, dayOf, d, w)
    ensures v == w
  {
  }

  lemma FirstGreatestDateUnique(cs: seq<RepoCommit<string>>, d: string, v: int, w: int)
    requires FirstGreatestDate(cs, d, v) && FirstGreatestDate(cs, d, w)
    ensures v == w
  {
  }

  /** The library keeps, for each day, the first commit with the latest instant. */
  lemma LibraryKeepsFirstLatest(cs: seq<RepoCommit<int>>, dayOf: int -> string, d: string)
    returns (w: nat)
    requires d in LibraryLastCommitByDay(cs, dayOf)
    ensures FirstLatestInstant(cs, dayOf, d, w) && LibraryLastCommitByDay(cs, dayOf)[d] == cs[w]
  {
    InstantAfterIsStrictWeakOrder();
    w := LastCommitByDayWinner(cs, dayOf, InstantAfter, d);
    forall j | 0 <= j < |cs| && dayOf(cs[j].date) == d ensures cs[j].date <= cs[w].date {
      assert OnDay(cs, dayOf, d, j);
    }
    forall j | 0 <= j < w && dayOf(cs[j].date) == d ensures cs[j].date < cs[w].date {
      assert OnDay(cs, dayOf, d, j);
    }
  }

  /** Conversely, the first commit of a day with the latest instant is that day's entry. */
  lemma LibraryDayEntry(cs: seq<RepoCommit<int>>, dayOf: int -> string, d: string, w: int)
    requires FirstLatestInstant(cs, dayOf, d, w)
    ensures d in LibraryLastCommitByDay(cs, dayOf) && LibraryLastCommitByDay(cs, dayOf)[d] == cs[w]
  {
    LastCommitByDayKeys(cs, dayOf, InstantAfter, d);
    assert OnDay(cs, dayOf, d, w);
    var v := LibraryKeepsFirstLatest(cs, dayOf, d);
    FirstLatestInstantUnique(cs, dayOf, d, v, w);
  }

  /** The command keeps, for each day, the first commit with the greatest date text. */
  lemma CliKeepsFirstLatest(cs: seq<RepoCommit<string>>, d: string) returns (w: nat)
    requires forall i :: 0 <= i < |cs| ==> |cs[i].date| >= 10
    requires d in CliLastCommitByDay(cs)
    ensures FirstGreatestDate(cs, d, w) && CliLastCommitByDay(cs)[d] == cs[w]
  {
    StrGreaterIsStrictWeakOrder();
    w := LastCommitByDayWinner(cs, CliDay, StrGreater, d);
    forall j | 0 <= j < |cs| && cs[j].date[..10] == d ensures StrCmp(cs[j].date, cs[w].date) <= 0 {
      assert OnDay(cs, CliDay, d, j);
    }
    forall j | 0 <= j < w && cs[j].date[..10] == d ensures StrCmp(cs[w].date, cs[j].date) > 0 {
      assert OnDay(cs, CliDay, d, j);
    }
  }

  /** Conversely, the first commit of a day with the greatest date text is that day's entry. */
  lemma CliDayEntry(cs: seq<RepoCommit<string>>, d: string, w: int)
    requires forall i :: 0 <= i < |cs| ==> |cs[i].date| >= 10
    requires FirstGreatestDate(cs, d, w)
    ensures d in CliLastCommitByDay(cs) && CliLastCommitByDay(cs)[d] == cs[w]
  {
    LastCommitByDayKeys(cs, CliDay, StrGreater, d);
    assert OnDay(cs, CliDay, d, w);
    var v := CliKeepsFirstLatest(cs, d);
    FirstGreatestDateUnique(cs, d, v, w);
  }
}
