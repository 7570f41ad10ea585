/**
 * The sorted sets of the in-memory backend: a list of (score, member) pairs
 * kept in ascending score order, each member at most once, together with the
 * list operations the backend builds them with (filtering comprehensions, the
 * append-then-sort of `zadd`, and Python slicing for `zrange`).
 */
module SortedSet {
  import opened Numeric

  datatype Entry<M> = Entry(score: real, member: M)

  predicate SortedByScore<M>(s: seq<Entry<M>>) {
    forall i, j :: 0 <= i < j < |s| ==> s[i].score <= s[j].score
  }

  predicate UniqueMembers<M(==)>(s: seq<Entry<M>>) {
    forall i, j :: 0 <= i < j < |s| ==> s[i].member != s[j].member
  }

  /** The shape every sorted set of the backend keeps. */
  predicate WellFormed<M(==)>(s: seq<Entry<M>>) {
    SortedByScore(s) && UniqueMembers(s)
  }

  function Members<M>(s: seq<Entry<M>>): (r: seq<M>)
    ensures |r| == |s| && forall i :: 0 <= i < |s| ==> r[i] == s[i].member
  {
    if s == [] then [] else [s[0].member] + Members(s[1..])
  }

  function Scores<M>(s: seq<Entry<M>>): (r: seq<real>)
    ensures |r| == |s| && forall i :: 0 <= i < |s| ==> r[i] == s[i].score
  {
    if s == [] then [] else [s[0].score] + Scores(s[1..])
  }

  // ---------------------------------------------------------------------------
  // Filtering: the list comprehensions `[x for x in s if keep(x)]`
  // ---------------------------------------------------------------------------

  function Filter<T>(s: seq<T>, keep: T -> bool): seq<T> {
    if s == [] then [] else (if keep(s[0]) then [s[0]] else []) + Filter(s[1..], keep)
  }

  lemma {:induction false} FilterMembers<T>(s: seq<T>, keep: T -> bool)
    ensures forall x :: x in Filter(s, keep) <==> x in s && keep(x)
    ensures |Filter(s, keep)| <= |s|
  {
    if s != [] {
      FilterMembers(s[1..], keep);
      assert forall x :: x in s <==> x == s[0] || x in s[1..];
    }
  }

  lemma InFilter<T>(s: seq<T>, keep: T -> bool, x: T)
    requires x in Filter(s, keep)
    ensures x in s && keep(x)
  {
    FilterMembers(s, keep);
  }

  lemma {:induction false} FilterConcat<T>(a: seq<T>, b: seq<T>, keep: T -> bool)
    ensures Filter(a + b, keep) == Filter(a, keep) + Filter(b, keep)
  {
    if a == [] {
      assert a + b == b;
    } else {
      var head := if keep(a[0]) then [a[0]] else [];
      assert (a + b)[0] == a[0];
      assert (a + b)[1..] == a[1..] + b;
      assert Filter(a + b, keep) == head + Filter(a[1..] + b, keep);
      FilterConcat(a[1..], b, keep);
      assert Filter(a, keep) == head + Filter(a[1..], keep);
    }
  }

  /** A filter that keeps everything returns its input. */
  lemma {:induction false} FilterKeepsAll<T>(s: seq<T>, keep: T -> bool)
    requires forall i :: 0 <= i < |s| ==> keep(s[i])
    ensures Filter(s, keep) == s
  {
    if s != [] {
      FilterKeepsAll(s[1..], keep);
    }
  }

  /** Two tests that agree on the elements of `s` filter it alike. */
  lemma {:induction false} FilterAgree<T>(s: seq<T>, f: T -> bool, g: T -> bool)
    requires forall i :: 0 <= i < |s| ==> f(s[i]) == g(s[i])
    ensures Filter(s, f) == Filter(s, g)
  {
    if s != [] {
      FilterAgree(s[1..], f, g);
    }
  }

  /** A stricter test keeps no more elements. */
  lemma {:induction false} FilterStricter<T>(s: seq<T>, f: T -> bool, g: T -> bool)
    requires forall i :: 0 <= i < |s| ==> g(s[i]) ==> f(s[i])
    ensures |Filter(s, g)| <= |Filter(s, f)|
  {
    if s != [] {
      FilterStricter(s[1..], f, g);
    }
  }

  /** Filtering twice keeps what the stricter test keeps. */
  lemma {:induction false} FilterTwice<T>(s: seq<T>, f: T -> bool, g: T -> bool)
    requires forall i :: 0 <= i < |s| ==> g(s[i]) ==> f(s[i])
    ensures Filter(Filter(s, f), g) == Filter(s, g)
  {
    if s != [] {
      FilterTwice(s[1..], f, g);
      var t := Filter(s[1..], f);
      if f(s[0]) {
        assert Filter(s, f) == [s[0]] + t;
        assert ([s[0]] + t)[0] == s[0] && ([s[0]] + t)[1..] == t;
        assert Filter([s[0]] + t, g) == (if g(s[0]) then [s[0]] else []) + Filter(t, g);
      } else {
        assert !g(s[0]);
        assert Filter(s, f) == t;
      }
    }
  }

  /** What sortedness of a list with a given head amounts to. */
  lemma SortedCons<M>(a: Entry<M>, t: seq<Entry<M>>)
    requires SortedByScore(t)
    requires forall x :: x in t ==> a.score <= x.score
    ensures SortedByScore([a] + t)
  {
    var r := [a] + t;
    forall i, j | 0 <= i < j < |r| ensures r[i].score <= r[j].score {
      assert r[j] == t[j - 1];
      if i > 0 {
        assert r[i] == t[i - 1];
      }
    }
  }

  lemma SortedTail<M>(s: seq<Entry<M>>)
    requires SortedByScore(s) && s != []
    ensures SortedByScore(s[1..])
    ensures forall x :: x in s[1..] ==> s[0].score <= x.score
  {
    forall x | x in s[1..] ensures s[0].score <= x.score {
      var k :| 0 <= k < |s[1..]| && s[1..][k] == x;
      assert s[k + 1] == x;
    }
  }

  lemma UniqueCons<M>(a: Entry<M>, t: seq<Entry<M>>)
    requires UniqueMembers(t)
    requires forall x :: x in t ==> a.member != x.member
    ensures UniqueMembers([a] + t)
  {
    var r := [a] + t;
    forall i, j | 0 <= i < j < |r| ensures r[i].member != r[j].member {
      assert r[j] == t[j - 1];
      if i > 0 {
        assert r[i] == t[i - 1];
      }
    }
  }

  lemma UniqueTail<M>(s: seq<Entry<M>>)
    requires UniqueMembers(s) && s != []
    ensures UniqueMembers(s[1..])
    ensures forall x :: x in s[1..] ==> s[0].member != x.member
  {
    forall x | x in s[1..] ensures s[0].member != x.member {
      var k :| 0 <= k < |s[1..]| && s[1..][k] == x;
      assert s[k + 1] == x;
    }
  }

  /** A filter keeps the order of what it keeps: sortedness survives it. */
  lemma {:induction false} FilterSorted<M>(s: seq<Entry<M>>, keep: Entry<M> -> bool)
    requires SortedByScore(s)
    ensures SortedByScore(Filter(s, keep))
  {
    if s != [] {
      SortedTail(s);
      FilterSorted(s[1..], keep);
      FilterMembers(s[1..], keep);
      if keep(s[0]) {
        forall x | x in Filter(s[1..], keep) ensures s[0].score <= x.score {
          InFilter(s[1..], keep, x);
        }
        SortedCons(s[0], Filter(s[1..], keep));
      }
    }
  }

  lemma {:induction false} FilterUnique<M>(s: seq<Entry<M>>, keep: Entry<M> -> bool)
    requires UniqueMembers(s)
    ensures UniqueMembers(Filter(s, keep))
  {
    if s != [] {
      UniqueTail(s);
      FilterUnique(s[1..], keep);
      FilterMembers(s[1..], keep);
      if keep(s[0]) {
        forall x | x in Filter(s[1..], keep) ensures s[0].member != x.member {
          InFilter(s[1..], keep, x);
        }
        UniqueCons(s[0], Filter(s[1..], keep));
      }
    }
  }

  /** The scores of the kept entries are the kept scores. */
  lemma {:induction false} FilterScores<M>(s: seq<Entry<M>>, keep: Entry<M> -> bool, keepScore: real -> bool)
    requires forall i :: 0 <= i < |s| ==> keep(s[i]) == keepScore(s[i].score)
    ensures Scores(Filter(s, keep)) == Filter(Scores(s), keepScore)
  {
    if s != [] {
      FilterScores(s[1..], keep, keepScore);
      assert Scores(s)[1..] == Scores(s[1..]);
      FilterConcat([s[0]], s[1..], keep);
    }
  }

  function WithoutMember<M(==)>(s: seq<Entry<M>>, m: M): seq<Entry<M>> {
    Filter(s, (e: Entry<M>) => e.member != m)
  }

  /** Entries whose score does not lie in [lo, hi], both ends inclusive. */
  function KeepOutside<M>(s: seq<Entry<M>>, lo: real, hi: real): seq<Entry<M>> {
    Filter(s, (e: Entry<M>) => !(lo <= e.score <= hi))
  }

  // ---------------------------------------------------------------------------
  // zadd's append followed by a stable sort on score
  // ---------------------------------------------------------------------------

  /** `e` placed after every entry whose score is at most its own: what a stable
      sort by score makes of a sorted list with `e` appended. */
  function InsertByScore<M>(s: seq<Entry<M>>, e: Entry<M>): seq<Entry<M>> {
    if s == [] || e.score < s[0].score then [e] + s else [s[0]] + InsertByScore(s[1..], e)
  }

  lemma {:induction false} InsertByScoreContents<M>(s: seq<Entry<M>>, e: Entry<M>)
    ensures |InsertByScore(s, e)| == |s| + 1
    ensures multiset(InsertByScore(s, e)) == multiset(s) + multiset{e}
    ensures forall x :: x in InsertByScore(s, e) <==> x in s || x == e
  {
    if s != [] && e.score >= s[0].score {
      InsertByScoreContents(s[1..], e);
      assert s == [s[0]] + s[1..];
    }
  }

  lemma InInsertByScore<M>(s: seq<Entry<M>>, e: Entry<M>, x: Entry<M>)
    requires x in InsertByScore(s, e)
    ensures x in s || x == e
  {
    InsertByScoreContents(s, e);
  }

  lemma {:induction false} InsertByScoreSorted<M>(s: seq<Entry<M>>, e: Entry<M>)
    requires SortedByScore(s)
    ensures SortedByScore(InsertByScore(s, e))
  {
    if s == [] || e.score < s[0].score {
      if s != [] {
        SortedTail(s);
      }
      SortedCons(e, s);
    } else {
      SortedTail(s);
      InsertByScoreSorted(s[1..], e);
      InsertByScoreContents(s[1..], e);
      forall x | x in InsertByScore(s[1..], e) ensures s[0].score <= x.score {
        InInsertByScore(s[1..], e, x);
      }
      SortedCons(s[0], InsertByScore(s[1..], e));
    }
  }

  lemma {:induction false} InsertByScoreUnique<M>(s: seq<Entry<M>>, e: Entry<M>)
    requires UniqueMembers(s) && e.member !in Members(s)
    ensures UniqueMembers(InsertByScore(s, e))
  {
    assert forall x :: x in s ==> x.member != e.member by {
      forall x | x in s ensures x.member != e.member {
        var k :| 0 <= k < |s| && s[k] == x;
        assert Members(s)[k] == x.member;
      }
    }
    if s == [] || e.score < s[0].score {
      UniqueCons(e, s);
    } else {
      UniqueTail(s);
      assert Members(s[1..]) == Members(s)[1..];
      InsertByScoreUnique(s[1..], e);
      InsertByScoreContents(s[1..], e);
      UniqueCons(s[0], InsertByScore(s[1..], e));
    }
  }

  /** In a sorted list, the stable insertion point of `e` is the index `i` that
      separates the scores at most `e.score` from the larger ones. */
  lemma {:induction false} InsertAt<M>(s: seq<Entry<M>>, e: Entry<M>, i: nat)
    requires i <= |s|
    requires forall j :: 0 <= j < i ==> s[j].score <= e.score
    requires forall j :: i <= j < |s| ==> s[j].score > e.score
    ensures InsertByScore(s, e) == s[..i] + [e] + s[i..]
  {
    if i == 0 {
      assert s[..0] == [] && s[0..] == s;
    } else {
      InsertAt(s[1..], e, i - 1);
      assert s[1..][..i - 1] == s[1..i];
      assert s[1..][i - 1..] == s[i..];
      assert s[..i] == [s[0]] + s[1..i];
    }
  }

  /** Appending an entry that scores at least as high as all others needs no move. */
  lemma InsertAfterAll<M>(s: seq<Entry<M>>, e: Entry<M>)
    requires forall j :: 0 <= j < |s| ==> s[j].score <= e.score
    ensures InsertByScore(s, e) == s + [e]
  {
    InsertAt(s, e, |s|);
    assert s[..|s|] == s && s[|s|..] == [];
  }

  /** One step of the insertion pass: the entry at i moves one place left,
      past `f[i - 1]`. */
  lemma MoveLeft<M>(f: seq<Entry<M>>, e: Entry<M>, i: nat, r: seq<Entry<M>>)
    requires 0 < i <= |f| && r == f[..i] + [e] + f[i..]
    ensures r[i - 1] == f[i - 1]
    ensures r[i - 1 := e][i := r[i - 1]] == f[..i - 1] + [e] + f[i - 1..]
  {
    assert r[i - 1] == f[i - 1];
    var a := r[i - 1 := e][i := f[i - 1]];
    var b := f[..i - 1] + [e] + f[i - 1..];
    assert |a| == |b|;
    forall k | 0 <= k < |a| ensures a[k] == b[k] {
      if k < i - 1 {
      } else if k == i - 1 {
      } else if k == i {
      } else {
        assert a[k] == f[k - 1];
      }
    }
  }

  /** The sort that follows `append` in zadd, done as the one insertion pass
      that a list sorted but for its last entry needs: the last entry moves left
      past every entry with a strictly larger score, so ties keep their order. */
  method SortAppended<M>(items: seq<Entry<M>>) returns (r: seq<Entry<M>>)
    requires |items| > 0 && SortedByScore(items[..|items| - 1])
    ensures r == InsertByScore(items[..|items| - 1], items[|items| - 1])
    ensures SortedByScore(r) && multiset(r) == multiset(items)
  {
    ghost var f := items[..|items| - 1];
    var e := items[|items| - 1];
    assert items == f[..|f|] + [e] + f[|f|..];
    r := items;
    var i := |items| - 1;
    while i > 0 && r[i - 1].score > e.score
      invariant 0 <= i <= |f|
      invariant r == f[..i] + [e] + f[i..]
      invariant forall j :: i <= j < |f| ==> f[j].score > e.score
    {
      MoveLeft(f, e, i, r);
      r := r[i - 1 := e][i := r[i - 1]];
      i := i - 1;
    }
    InsertionPoint(f, e, i, r);
    assert items == f + [e];
  }

  /** Where the insertion pass stops, `e` sits at its stable place in the
      sorted list `f`: the list is `InsertByScore(f, e)`, sorted and holding
      the same entries as `f + [e]`. */
  lemma InsertionPoint<M>(f: seq<Entry<M>>, e: Entry<M>, i: nat, r: seq<Entry<M>>)
    requires SortedByScore(f) && i <= |f| && r == f[..i] + [e] + f[i..]
    requires i > 0 ==> r[i - 1].score <= e.score
    requires forall j :: i <= j < |f| ==> f[j].score > e.score
    ensures r == InsertByScore(f, e)
    ensures SortedByScore(r)
    ensures multiset(r) == multiset(f + [e])
  {
    assert i > 0 ==> r[i - 1] == f[i - 1];
    forall j | 0 <= j < i ensures f[j].score <= e.score {
      assert f[j].score <= f[i - 1].score;
    }
    InsertAt(f, e, i);
    InsertByScoreSorted(f, e);
    InsertByScoreContents(f, e);
  }

  // ---------------------------------------------------------------------------
  // zrange: index ranges with an inclusive stop
  // ---------------------------------------------------------------------------

  /** How Python normalises a slice bound against a list of length n. */
  function SliceBound(x: int, n: nat): (r: nat)
    ensures r <= n
  {
    if x < 0 then (if x + n < 0 then 0 else x + n) else (if x > n then n else x)
  }

  /** Python's `s[i:j]`. */
  function PySlice<T>(s: seq<T>, i: int, j: int): seq<T> {
    var a := SliceBound(i, |s|);
    var b := SliceBound(j, |s|);
    if a < b then s[a..b] else []
  }

  /** The index arithmetic of the backend's zrange, as written: negative bounds
      are shifted by the length once, then `items[start:stop + 1]` is taken with
      Python's slice semantics. */
  function RangeAsWritten<T>(items: seq<T>, start: int, stop: int): seq<T> {
    if items == [] then []
    else
      var n := |items|;
      var a := if start < 0 then (if n + start < 0 then 0 else n + start) else start;
      var b := if stop < 0 then n + stop else stop;
      PySlice(items, a, b + 1)
  }

  /** Redis ZRANGE index semantics: negative indexes count from the end, the
      stop index is inclusive and clamped to the last element, and a stop that
      still falls before start gives the empty range. */
  function RangeRedis<T>(items: seq<T>, start: int, stop: int): seq<T> {
    var n := |items|;
    var a := if start < 0 then (if n + start < 0 then 0 else n + start) else start;
    var b := if stop < 0 then n + stop else stop;
    if a >= n || b < a then [] else items[a..if b < n then b + 1 else n]
  }

  /** Inclusive stop, and -1 naming the last element. */
  lemma RangeRedisInclusive<T>(items: seq<T>, start: int, stop: int)
    requires 0 <= start <= |items|
    ensures start <= stop < |items| ==> RangeRedis(items, start, stop) == items[start..stop + 1]
    ensures RangeRedis(items, start, -1) == items[start..]
    ensures RangeRedis(items, 0, 0) == (if items == [] then [] else [items[0]])
  {
  }

  /** Both readings agree unless the stop index lies more than one place before
      the start of the list. */
  lemma RangeAgreement<T>(items: seq<T>, start: int, stop: int)
    requires stop >= -|items| - 1
    ensures RangeAsWritten(items, start, stop) == RangeRedis(items, start, stop)
  {
  }

  /** As written, a stop two or more places before the start of the list is
      taken by Python slicing as counting from the end again: on three members,
      zrange(0, -5) yields the first two instead of none. */
  lemma RangeAsWrittenWrapsAround()
    ensures RangeAsWritten(['a', 'b', 'c'], 0, -5) == ['a', 'b']
    ensures RangeRedis(['a', 'b', 'c'], 0, -5) == []
  {
  }
}
