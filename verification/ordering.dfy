/** Three-way comparisons, lexicographic comparison of sequences, and the insertion
    sort that stands in for Go's (unstable) `sort.Slice`. */
module Ordering {

  /** `cmp` is a total preorder given as a three-way comparison (-1, 0, 1):
      swapping the arguments negates the answer, and "at least" is transitive. */
  ghost predicate Preorder<T(!new)>(cmp: (T, T) -> int) {
    && (forall a, b :: cmp(a, b) == -cmp(b, a))
    && (forall a, b, c :: cmp(a, b) >= 0 && cmp(b, c) >= 0 ==> cmp(a, c) >= 0)
  }

  /** `cmp` answers 0 exactly on equal arguments, so a preorder becomes a total order. */
  ghost predicate Exact<T(!new)>(cmp: (T, T) -> int) {
    forall a, b :: cmp(a, b) == 0 <==> a == b
  }

  /** `le` relates every pair one way or the other and is transitive. */
  ghost predicate TotalPreorder<T(!new)>(le: (T, T) -> bool) {
    && (forall a, b :: le(a, b) || le(b, a))
    && (forall a, b, c :: le(a, b) && le(b, c) ==> le(a, c))
  }

  /** `after` is a strict weak order: irreflexive, transitive, and "not after" is transitive. */
  ghost predicate StrictWeakOrder<T(!new)>(after: (T, T) -> bool) {
    && (forall a :: !after(a, a))
    && (forall a, b, c :: after(a, b) && after(b, c) ==> after(a, c))
    && (forall a, b, c :: !after(a, b) && !after(b, c) ==> !after(a, c))
  }

  function CmpInt(a: int, b: int): int {
    if a < b then -1 else if a > b then 1 else 0
  }

  function CmpChar(a: char, b: char): int {
    CmpInt(a as int, b as int)
  }

  /** Lexicographic comparison: the first differing position decides, and a proper
      prefix comes first. */
  function SeqCmp<T>(a: seq<T>, b: seq<T>, cmp: (T, T) -> int): int
  {
    if |a| == 0 && |b| == 0 then 0
    else if |a| == 0 then -1
    else if |b| == 0 then 1
    else if cmp(a[0], b[0]) != 0 then (if cmp(a[0], b[0]) < 0 then -1 else 1)
    else SeqCmp(a[1..], b[1..], cmp)
  }

  /** Go's byte-wise string comparison; comparing code points gives the same order. */
  function StrCmp(a: string, b: string): int {
    SeqCmp(a, b, CmpChar)
  }

  lemma CmpCharLaws()
    ensures Preorder(CmpChar) && Exact(CmpChar)
  {
    forall a: char, b: char ensures CmpChar(a, b) == 0 <==> a == b {
      if CmpChar(a, b) == 0 {
        assert a as int == b as int;
      }
    }
  }

  lemma {:induction false} SeqCmpAntisymmetric<T(!new)>(a: seq<T>, b: seq<T>, cmp: (T, T) -> int)
    requires Preorder(cmp)
    ensures SeqCmp(a, b, cmp) == -SeqCmp(b, a, cmp)
    decreases |a|
  {
    if |a| > 0 && |b| > 0 && cmp(a[0], b[0]) == 0 {
      SeqCmpAntisymmetric(a[1..], b[1..], cmp);
    }
  }

  lemma {:induction false} SeqCmpExact<T(!new)>(a: seq<T>, b: seq<T>, cmp: (T, T) -> int)
    requires Exact(cmp)
    ensures SeqCmp(a, b, cmp) == 0 <==> a == b
    decreases |a|
  {
    if |a| > 0 && |b| > 0 && cmp(a[0], b[0]) == 0 {
      SeqCmpExact(a[1..], b[1..], cmp);
      assert a == [a[0]] + a[1..] && b == [b[0]] + b[1..];
    }
  }

  lemma {:induction false} SeqCmpTransitive<T(!new)>(a: seq<T>, b: seq<T>, c: seq<T>, cmp: (T, T) -> int)
    requires Preorder(cmp) && Exact(cmp)
    requires SeqCmp(a, b, cmp) >= 0 && SeqCmp(b, c, cmp) >= 0
    ensures SeqCmp(a, c, cmp) >= 0
    decreases |a|
  {
    if |a| > 0 && |b| > 0 && |c| > 0 {
      if cmp(a[0], b[0]) == 0 && cmp(b[0], c[0]) == 0 {
        SeqCmpTransitive(a[1..], b[1..], c[1..], cmp);
      } else if cmp(a[0], b[0]) == 0 {
        assert a[0] == b[0];
      } else if cmp(b[0], c[0]) == 0 {
        assert b[0] == c[0];
      } else {
        assert cmp(a[0], c[0]) >= 0;
      }
    }
  }

  lemma StrCmpLaws(a: string, b: string, c: string)
    ensures StrCmp(a, b) == -StrCmp(b, a)
    ensures StrCmp(a, b) == 0 <==> a == b
    ensures StrCmp(a, b) >= 0 && StrCmp(b, c) >= 0 ==> StrCmp(a, c) >= 0
  {
    CmpCharLaws();
    SeqCmpAntisymmetric(a, b, CmpChar);
    SeqCmpExact(a, b, CmpChar);
    if StrCmp(a, b) >= 0 && StrCmp(b, c) >= 0 {
      SeqCmpTransitive(a, b, c, CmpChar);
    }
  }

  /** Go's `a > b` on strings. */
  function StrGreater(a: string, b: string): bool {
    StrCmp(a, b) > 0
  }

  /** "Strictly greater" on strings is a strict weak order. */
  lemma StrGreaterIsStrictWeakOrder()
    ensures StrictWeakOrder(StrGreater)
  {
    var after := StrGreater;
    forall a: string ensures !after(a, a) {
      StrCmpLaws(a, a, a);
    }
    forall a: string, b: string, c: string | after(a, b) && after(b, c)
      ensures after(a, c)
    {
      StrCmpLaws(a, b, c);
      StrCmpLaws(a, c, b);
      StrCmpLaws(c, a, b);
    }
    forall a: string, b: string, c: string | !after(a, b) && !after(b, c)
      ensures !after(a, c)
    {
      StrCmpLaws(c, b, a);
      StrCmpLaws(b, a, c);
      StrCmpLaws(a, c, b);
    }
  }

  /** Every element is sorted against every later one. */
  predicate SortedBy<T>(s: seq<T>, le: (T, T) -> bool) {
    forall i, j :: 0 <= i < j < |s| ==> le(s[i], s[j])
  }

  /** `x` goes in front of the first element it may precede. */
  function InsertBy<T>(x: T, s: seq<T>, le: (T, T) -> bool): (r: seq<T>)
    ensures multiset(r) == multiset(s) + multiset{x}
    ensures |r| == |s| + 1
  {
    if |s| == 0 then [x]
    else if le(x, s[0]) then [x] + s
    else
      var r := [s[0]] + InsertBy(x, s[1..], le);
      assert s == [s[0]] + s[1..];
      r
  }

  /** Insertion sort: a permutation of `s`; sorted when `le` is a total preorder
      (see `SortByIsSorted`). Elements that `le` relates both ways may come out in any
      relative order, as with Go's unstable `sort.Slice`. */
  function SortBy<T>(s: seq<T>, le: (T, T) -> bool): (r: seq<T>)
    ensures multiset(r) == multiset(s)
    ensures |r| == |s|
  {
    if |s| == 0 then []
    else
      var r := InsertBy(s[0], SortBy(s[1..], le), le);
      assert s == [s[0]] + s[1..];
      r
  }

  lemma {:induction false} InsertByKeepsSorted<T(!new)>(x: T, s: seq<T>, le: (T, T) -> bool)
    requires TotalPreorder(le)
    requires SortedBy(s, le)
    ensures SortedBy(InsertBy(x, s, le), le)
    decreases |s|
  {
    if |s| > 0 && !le(x, s[0]) {
      InsertByKeepsSorted(x, s[1..], le);
      var tail := InsertBy(x, s[1..], le);
      var r := [s[0]] + tail;
      forall j | 0 <= j < |tail| ensures le(s[0], tail[j]) {
        assert tail[j] in multiset(tail);
        assert tail[j] in multiset(s[1..]) || tail[j] == x;
        if tail[j] != x {
          var k :| 0 <= k < |s[1..]| && s[1..][k] == tail[j];
          assert s[k + 1] == tail[j];
        }
      }
      forall i, j | 0 <= i < j < |r| ensures le(r[i], r[j]) {
        if i == 0 {
          assert r[j] == tail[j - 1];
        } else {
          assert r[i] == tail[i - 1] && r[j] == tail[j - 1];
        }
      }
    }
  }

  lemma {:induction false} SortByIsSorted<T(!new)>(s: seq<T>, le: (T, T) -> bool)
    requires TotalPreorder(le)
    ensures SortedBy(SortBy(s, le), le)
    decreases |s|
  {
    if |s| > 0 {
      SortByIsSorted(s[1..], le);
      InsertByKeepsSorted(s[0], SortBy(s[1..], le), le);
    }
  }

  /** No element occurs twice. */
  predicate NoDuplicates<T(==)>(s: seq<T>) {
    forall i, j :: 0 <= i < j < |s| ==> s[i] != s[j]
  }

  /** A permutation of a duplicate-free sequence is duplicate-free. */
  lemma PermutationKeepsNoDuplicates<T>(s: seq<T>, r: seq<T>)
    requires multiset(s) == multiset(r)
    requires NoDuplicates(s)
    ensures NoDuplicates(r)
  {
    forall x | x in multiset(s) ensures multiset(s)[x] == 1 {
      MultiplicityOfDistinct(s, x);
    }
    forall i, j | 0 <= i < j < |r| ensures r[i] != r[j] {
      if r[i] == r[j] {
        TwoOccurrences(r, i, j);
      }
    }
  }

  lemma TwoOccurrences<T>(r: seq<T>, i: nat, j: nat)
    requires i < j < |r| && r[i] == r[j]
    ensures multiset(r)[r[i]] >= 2
  {
    var x := r[i];
    assert r == r[..i] + [x] + r[i + 1..];
    assert r[i + 1..] == r[i + 1..j] + [x] + r[j + 1..];
  }

  lemma {:induction false} MultiplicityOfDistinct<T>(s: seq<T>, x: T)
    requires NoDuplicates(s)
    ensures multiset(s)[x] <= 1
    decreases |s|
  {
    if |s| > 0 {
      assert s == [s[0]] + s[1..];
      MultiplicityOfDistinct(s[1..], x);
      if s[0] == x {
        assert x !in s[1..];
      }
    }
  }

  /** Joining two duplicate-free sequences with no element in common gives a
      duplicate-free sequence. */
  lemma NoDuplicatesAppend<T>(a: seq<T>, b: seq<T>)
    requires NoDuplicates(a) && NoDuplicates(b)
    requires forall x :: x in a ==> x !in b
    ensures NoDuplicates(a + b)
  {
    forall i, j | 0 <= i < j < |a + b| ensures (a + b)[i] != (a + b)[j] {
      if i < |a| && j >= |a| {
        assert (a + b)[i] in a && (a + b)[j] in b;
      }
    }
  }

  /** "At least" of a three-way comparison that is a preorder is a total preorder,
      and "greater" followed by "at least" is "greater". */
  lemma PreorderChain<T(!new)>(cmp: (T, T) -> int, a: T, b: T, c: T)
    requires Preorder(cmp)
    ensures cmp(a, a) == 0
    ensures cmp(a, b) >= 0 || cmp(b, a) >= 0
    ensures cmp(a, b) > 0 && cmp(b, c) >= 0 ==> cmp(a, c) > 0
  {
    assert cmp(a, a) == -cmp(a, a);
    assert cmp(a, b) == -cmp(b, a);
    if cmp(a, b) > 0 && cmp(b, c) >= 0 {
      assert cmp(a, c) >= 0;
      assert cmp(c, a) == -cmp(a, c);
      assert cmp(b, c) >= 0 && cmp(c, a) >= 0 ==> cmp(b, a) >= 0;
    }
  }

  /** Two duplicate-free sequences with the same elements are permutations of each other. */
  lemma SameElementsSameMultiset<T>(a: seq<T>, b: seq<T>)
    requires NoDuplicates(a) && NoDuplicates(b)
    requires forall x :: x in a <==> x in b
    ensures multiset(a) == multiset(b)
  {
    forall x ensures multiset(a)[x] == multiset(b)[x] {
      MultiplicityOfDistinct(a, x);
      MultiplicityOfDistinct(b, x);
      assert x in a <==> x in b;
    }
  }

  /** Go's `for k := range m`: lists every key of `m` exactly once, in an order the
      model does not fix (the runtime randomises it). */
  method Enumerate<K(==), V>(m: map<K, V>) returns (ks: seq<K>)
    ensures |ks| == |m|
    ensures NoDuplicates(ks)
    ensures forall k :: k in m <==> k in ks
  {
    ks := [];
    var rest := m.Keys;
    while rest != {}
      invariant rest <= m.Keys
      invariant forall k :: k in m <==> k in ks || k in rest
      invariant forall i :: 0 <= i < |ks| ==> ks[i] !in rest
      invariant NoDuplicates(ks)
      invariant |ks| + |rest| == |m.Keys|
      decreases rest
    {
      var k :| k in rest;
      ks := ks + [k];
      rest := rest - {k};
    }
  }
}
