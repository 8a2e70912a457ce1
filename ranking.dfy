/**
  The ordering behind the popularity query: film ids sorted by like count,
  largest first, then cut to the requested number (`ORDER BY likes_count DESC LIMIT ?`).
 */
module Ranking {
  import opened Collections

  /** Every id of `s` has a like count. */
  predicate Counted(s: seq<int>, counts: map<int, nat>) {
    forall i :: 0 <= i < |s| ==> s[i] in counts
  }

  /** Like counts never increase along `s`. */
  predicate ByLikes(s: seq<int>, counts: map<int, nat>)
    requires Counted(s, counts)
  {
    forall i, j :: 0 <= i < j < |s| ==> counts[s[i]] >= counts[s[j]]
  }

  /** Putting an element with at least the first one's likes in front keeps the order. */
  lemma ConsKeepsByLikes(h: int, t: seq<int>, counts: map<int, nat>)
    requires h in counts && Counted(t, counts) && ByLikes(t, counts)
    requires t != [] ==> counts[h] >= counts[t[0]]
    ensures Counted([h] + t, counts) && ByLikes([h] + t, counts)
  {
    var r := [h] + t;
    forall i, j | 0 <= i < j < |r|
      ensures counts[r[i]] >= counts[r[j]]
    {
      if i == 0 {
        assert r[j] == t[j - 1];
        assert counts[t[0]] >= counts[t[j - 1]];
      } else {
        assert r[i] == t[i - 1] && r[j] == t[j - 1];
      }
    }
  }

  /** Puts `x` after every element with at least as many likes. */
  function InsertByLikes(x: int, s: seq<int>, counts: map<int, nat>): (r: seq<int>)
    requires x in counts && Counted(s, counts)
    ensures |r| == |s| + 1
    ensures multiset(r) == multiset(s) + multiset{x}
    ensures Counted(r, counts)
  {
    if s == [] then [x]
    else if counts[s[0]] >= counts[x] then
      var t := InsertByLikes(x, s[1..], counts);
      assert s == [s[0]] + s[1..];
      [s[0]] + t
    else
      [x] + s
  }

  /** Inserting into a list ordered by likes keeps it ordered; the head is either `x`
      or the old head. */
  lemma {:induction false} InsertKeepsByLikes(x: int, s: seq<int>, counts: map<int, nat>)
    requires x in counts && Counted(s, counts) && ByLikes(s, counts)
    ensures ByLikes(InsertByLikes(x, s, counts), counts)
    ensures s != [] ==> InsertByLikes(x, s, counts)[0] in {x, s[0]}
  {
    if s != [] && counts[s[0]] >= counts[x] {
      var tail := s[1..];
      assert Counted(tail, counts) && ByLikes(tail, counts) by {
        forall i, j | 0 <= i < j < |tail|
          ensures counts[tail[i]] >= counts[tail[j]]
        {
          assert tail[i] == s[i + 1] && tail[j] == s[j + 1];
        }
      }
      InsertKeepsByLikes(x, tail, counts);
      var t := InsertByLikes(x, tail, counts);
      assert |s| > 1 ==> counts[s[0]] >= counts[s[1]];
      ConsKeepsByLikes(s[0], t, counts);
      assert InsertByLikes(x, s, counts) == [s[0]] + t;
    } else {
      ConsKeepsByLikes(x, s, counts);
    }
  }

  /** Insertion sort by like count; equal counts keep their order in `s`. */
  function SortByLikes(s: seq<int>, counts: map<int, nat>): (r: seq<int>)
    requires Counted(s, counts)
    ensures |r| == |s|
    ensures multiset(r) == multiset(s)
    ensures Counted(r, counts) && ByLikes(r, counts)
  {
    if s == [] then []
    else
      var init := s[..|s| - 1];
      assert s == init + [s[|s| - 1]];
      var sorted := SortByLikes(init, counts);
      InsertKeepsByLikes(s[|s| - 1], sorted, counts);
      InsertByLikes(s[|s| - 1], sorted, counts)
  }

  /** The first `n` elements, or all of them when there are fewer (`LIMIT n`). */
  function Take(s: seq<int>, n: nat): (r: seq<int>)
    ensures |r| == if n < |s| then n else |s|
    ensures r == s[..|r|]
  {
    if n < |s| then s[..n] else s
  }

  lemma {:induction false} DistinctCountsAtMostOne(a: seq<int>, x: int)
    requires Distinct(a)
    ensures multiset(a)[x] <= 1
  {
    if a != [] {
      assert a == [a[0]] + a[1..];
      DistinctCountsAtMostOne(a[1..], x);
      if x == a[0] {
        assert x !in a[1..];
      }
    }
  }

  /** A permutation of a list without repetitions has none either. */
  lemma PermutationKeepsDistinct(a: seq<int>, b: seq<int>)
    requires Distinct(a) && multiset(a) == multiset(b)
    ensures Distinct(b)
  {
    forall i, j | 0 <= i < j < |b|
      ensures b[i] != b[j]
    {
      if b[i] == b[j] {
        assert b == b[..j] + b[j..];
        assert b[i] in multiset(b[..j]);
        assert b[j] in multiset(b[j..]);
        assert multiset(b)[b[i]] == multiset(b[..j])[b[i]] + multiset(b[j..])[b[i]];
        DistinctCountsAtMostOne(a, b[i]);
        assert false;
      }
    }
  }

  /** Cutting a list sorted by likes keeps the most liked: what is left out has no more
      likes than anything kept. */
  lemma TakeKeepsTop(s: seq<int>, counts: map<int, nat>, n: nat)
    requires Counted(s, counts) && ByLikes(s, counts)
    ensures forall x, i :: x in s && x !in Take(s, n) && 0 <= i < |Take(s, n)| ==> counts[Take(s, n)[i]] >= counts[x]
  {
    var t := Take(s, n);
    forall x, i | x in s && x !in t && 0 <= i < |t|
      ensures counts[t[i]] >= counts[x]
    {
      var j :| 0 <= j < |s| && s[j] == x;
      assert j >= |t|;
    }
  }

  lemma AscendingIsDistinct(s: seq<int>)
    requires StrictlyAscending(s)
    ensures Distinct(s)
  {
  }

  lemma PrefixKeepsDistinct(s: seq<int>, k: nat)
    requires Distinct(s) && k <= |s|
    ensures Distinct(s[..k])
  {
  }

  /** The ids of a set, each once, ordered by likes. */
  function RankedIds(ids: set<int>, counts: map<int, nat>): (r: seq<int>)
    requires ids <= counts.Keys
    ensures |r| == |ids|
    ensures Distinct(r)
    ensures forall x :: x in r <==> x in ids
    ensures Counted(r, counts) && ByLikes(r, counts)
  {
    var ascending := SortedSet(ids);
    AscendingIsDistinct(ascending);
    assert Counted(ascending, counts) by {
      forall i | 0 <= i < |ascending|
        ensures ascending[i] in counts
      {
        assert ascending[i] in ascending;
      }
    }
    var sorted := SortByLikes(ascending, counts);
    PermutationKeepsDistinct(ascending, sorted);
    SameElements(ascending, sorted);
    sorted
  }

  /** Cutting a list of distinct ids ordered by likes to `n` keeps the properties of
      the top `n`. */
  lemma TopOfRanked(s: seq<int>, ids: set<int>, counts: map<int, nat>, n: nat)
    requires Distinct(s) && (forall x :: x in s <==> x in ids)
    requires Counted(s, counts) && ByLikes(s, counts)
    ensures Distinct(Take(s, n)) && Counted(Take(s, n), counts) && ByLikes(Take(s, n), counts)
    ensures forall i :: 0 <= i < |Take(s, n)| ==> Take(s, n)[i] in ids
    ensures forall x, i :: x in ids && x !in Take(s, n) && 0 <= i < |Take(s, n)| ==> counts[Take(s, n)[i]] >= counts[x]
  {
    var r := Take(s, n);
    TakeKeepsTop(s, counts, n);
    PrefixKeepsDistinct(s, |r|);
    forall i | 0 <= i < |r|
      ensures r[i] in ids
    {
      assert r[i] == s[i];
      assert s[i] in s;
    }
  }

  /** The top `n` of a set of ids by like count: each id at most once, counts never
      increasing, and nothing left out that has more likes than something kept. */
  function Popular(ids: set<int>, counts: map<int, nat>, n: nat): (r: seq<int>)
    requires ids <= counts.Keys
    ensures |r| == if n < |ids| then n else |ids|
    ensures Distinct(r)
    ensures forall i :: 0 <= i < |r| ==> r[i] in ids
    ensures forall i, j :: 0 <= i < j < |r| ==> counts[r[i]] >= counts[r[j]]
    ensures forall x, i :: x in ids && x !in r && 0 <= i < |r| ==> counts[r[i]] >= counts[x]
  {
    var sorted := RankedIds(ids, counts);
    TopOfRanked(sorted, ids, counts, n);
    Take(sorted, n)
  }

  lemma SameElements(a: seq<int>, b: seq<int>)
    requires multiset(a) == multiset(b)
    ensures forall x :: x in a <==> x in b
  {
    forall x
      ensures x in a <==> x in b
    {
      assert x in a <==> x in multiset(a);
      assert x in b <==> x in multiset(b);
    }
  }
}
