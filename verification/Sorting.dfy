/** A stable sort by a numeric rank, as `Array.prototype.sort` with a subtracting comparator performs it. */
module Sorting {
  import opened Seqs

  /** Compared first by the major number, ties by the minor one. */
  datatype Rank = Rank(major: int, minor: int)

  predicate Leq(a: Rank, b: Rank) {
    a.major < b.major || (a.major == b.major && a.minor <= b.minor)
  }

  function InsertByRank<T>(s: seq<T>, x: T, rank: T -> Rank): seq<T> {
    if s == [] || Leq(rank(s[|s| - 1]), rank(x)) then s + [x]
    else InsertByRank(s[..|s| - 1], x, rank) + [s[|s| - 1]]
  }

  function SortBy<T>(s: seq<T>, rank: T -> Rank): seq<T> {
    if s == [] then [] else InsertByRank(SortBy(s[..|s| - 1], rank), s[|s| - 1], rank)
  }

  ghost predicate SortedBy<T>(s: seq<T>, rank: T -> Rank) {
    forall i, j :: 0 <= i < j < |s| ==> Leq(rank(s[i]), rank(s[j]))
  }

  /** The elements of one rank, in order: what a stable sort leaves as it was. */
  ghost function OfRank<T>(s: seq<T>, rank: T -> Rank, r: Rank): seq<T> {
    if s == [] then []
    else OfRank(s[..|s| - 1], rank, r) + if rank(s[|s| - 1]) == r then [s[|s| - 1]] else []
  }

  ghost predicate DistinctRanks<T>(s: seq<T>, rank: T -> Rank) {
    forall i, j :: 0 <= i < j < |s| ==> rank(s[i]) != rank(s[j])
  }

  lemma {:induction false} InsertKeepsElements<T>(s: seq<T>, x: T, rank: T -> Rank)
    ensures multiset(InsertByRank(s, x, rank)) == multiset(s) + multiset{x}
  {
    if !(s == [] || Leq(rank(s[|s| - 1]), rank(x))) {
      InsertKeepsElements(s[..|s| - 1], x, rank);
      assert s == s[..|s| - 1] + [s[|s| - 1]];
    }
  }

  lemma InsertMember<T>(s: seq<T>, x: T, rank: T -> Rank, y: T)
    ensures y in InsertByRank(s, x, rank) <==> y in s || y == x
  {
    InsertKeepsElements(s, x, rank);
    assert y in InsertByRank(s, x, rank) <==> y in multiset(InsertByRank(s, x, rank));
    assert y in s <==> y in multiset(s);
  }

  lemma {:induction false} InsertSorts<T>(s: seq<T>, x: T, rank: T -> Rank)
    requires SortedBy(s, rank)
    ensures SortedBy(InsertByRank(s, x, rank), rank)
  {
    if !(s == [] || Leq(rank(s[|s| - 1]), rank(x))) {
      var init, last := s[..|s| - 1], s[|s| - 1];
      InsertSorts(init, x, rank);
      forall y | y in InsertByRank(init, x, rank) ensures Leq(rank(y), rank(last)) {
        InsertMember(init, x, rank, y);
        if y in init {
          var i :| 0 <= i < |init| && init[i] == y;
          assert s[i] == y;
        }
      }
    }
  }

  lemma {:induction false} InsertIsStable<T>(s: seq<T>, x: T, rank: T -> Rank, r: Rank)
    requires SortedBy(s, rank)
    ensures OfRank(InsertByRank(s, x, rank), rank, r) == OfRank(s, rank, r) + if rank(x) == r then [x] else []
  {
    if s == [] || Leq(rank(s[|s| - 1]), rank(x)) {
      assert (s + [x])[..|s|] == s;
    } else {
      var init, last := s[..|s| - 1], s[|s| - 1];
      InsertIsStable(init, x, rank, r);
      var t := InsertByRank(init, x, rank);
      assert (t + [last])[..|t|] == t;
      assert rank(last) != rank(x);
    }
  }

  /** Sorted, a rearrangement, and stable. */
  lemma {:induction false} SortBySorts<T>(s: seq<T>, rank: T -> Rank)
    ensures SortedBy(SortBy(s, rank), rank) && multiset(SortBy(s, rank)) == multiset(s)
    ensures |SortBy(s, rank)| == |s|
    ensures forall r :: OfRank(SortBy(s, rank), rank, r) == OfRank(s, rank, r)
  {
    if s != [] {
      var init, last := s[..|s| - 1], s[|s| - 1];
      SortBySorts(init, rank);
      InsertSorts(SortBy(init, rank), last, rank);
      InsertKeepsElements(SortBy(init, rank), last, rank);
      assert s == init + [last];
      forall r ensures OfRank(SortBy(s, rank), rank, r) == OfRank(s, rank, r) {
        InsertIsStable(SortBy(init, rank), last, rank, r);
      }
    }
    assert |SortBy(s, rank)| == |multiset(SortBy(s, rank))| == |multiset(s)| == |s|;
  }

  lemma SameElements<T>(s: seq<T>, t: seq<T>)
    requires multiset(s) == multiset(t)
    ensures |s| == |t| && forall x :: x in s <==> x in t
  {
    assert |s| == |multiset(s)| == |multiset(t)| == |t|;
    forall x ensures x in s <==> x in t { assert x in s <==> x in multiset(s); }
  }

  lemma SortLength<T>(s: seq<T>, rank: T -> Rank)
    ensures |SortBy(s, rank)| == |s|
  {
    SortBySorts(s, rank);
  }

  lemma SortMember<T>(s: seq<T>, rank: T -> Rank, x: T)
    ensures x in SortBy(s, rank) <==> x in s
  {
    SortBySorts(s, rank);
    SameElements(SortBy(s, rank), s);
  }

  /** Elements of one rank come in the order `before` says. */
  ghost predicate TiesKeep<T(!new)>(s: seq<T>, rank: T -> Rank, before: (T, T) -> bool) {
    forall i, j :: 0 <= i < j < |s| && rank(s[i]) == rank(s[j]) ==> before(s[i], s[j])
  }

  lemma {:induction false} InsertKeepsTies<T(!new)>(s: seq<T>, x: T, rank: T -> Rank, before: (T, T) -> bool)
    requires TiesKeep(s, rank, before) && SortedBy(s, rank) && forall y :: y in s ==> before(y, x)
    ensures TiesKeep(InsertByRank(s, x, rank), rank, before)
  {
    if s != [] && !Leq(rank(s[|s| - 1]), rank(x)) {
      var init, last := s[..|s| - 1], s[|s| - 1];
      InsertKeepsTies(init, x, rank, before);
      var rest := InsertByRank(init, x, rank);
      forall i | 0 <= i < |rest| && rank(rest[i]) == rank(last) ensures before(rest[i], last) {
        InsertMember(init, x, rank, rest[i]);
        if rest[i] != x {
          var k :| 0 <= k < |init| && init[k] == rest[i];
          assert s[k] == rest[i];
        }
      }
    }
  }

  /** Sorting leaves elements of one rank in the order they had. */
  lemma {:induction false} SortKeepsTies<T(!new)>(s: seq<T>, rank: T -> Rank, before: (T, T) -> bool)
    requires forall i, j :: 0 <= i < j < |s| ==> before(s[i], s[j])
    ensures TiesKeep(SortBy(s, rank), rank, before)
  {
    if s != [] {
      var init, last := s[..|s| - 1], s[|s| - 1];
      SortKeepsTies(init, rank, before);
      SortBySorts(init, rank);
      forall y | y in SortBy(init, rank) ensures before(y, last) {
        SortMember(init, rank, y);
        var k :| 0 <= k < |init| && init[k] == y;
        assert s[k] == y;
      }
      InsertKeepsTies(SortBy(init, rank), last, rank, before);
    }
  }

  /** With distinct ranks, elements of the same rank are the same element. */
  lemma SameRankSameElement<T>(s: seq<T>, rank: T -> Rank, x: T, y: T)
    requires DistinctRanks(s, rank) && x in s && y in s && rank(x) == rank(y)
    ensures x == y
  {
    var i :| 0 <= i < |s| && s[i] == x;
    var j :| 0 <= j < |s| && s[j] == y;
    assert i == j;
  }

  ghost predicate SamePlace<T>(s: seq<T>, rank: T -> Rank, x: T, y: T) {
    x in s && y in s && rank(x) == rank(y) ==> x == y
  }

  /** Elements of equal rank are equal. */
  ghost predicate RankIdentifies<T(!new)>(s: seq<T>, rank: T -> Rank) {
    forall x, y :: SamePlace(s, rank, x, y)
  }

  lemma RankIdentifiesSame<T(!new)>(s: seq<T>, t: seq<T>, rank: T -> Rank)
    requires RankIdentifies(s, rank) && forall x :: x in t ==> x in s
    ensures RankIdentifies(t, rank)
  {
    forall x, y ensures SamePlace(t, rank, x, y) { assert SamePlace(s, rank, x, y); }
  }

  /** Two sorted rearrangements of one another are equal when ranks identify elements. */
  lemma {:induction false} SortedIsUnique<T(!new)>(s: seq<T>, t: seq<T>, rank: T -> Rank)
    requires SortedBy(s, rank) && SortedBy(t, rank) && multiset(s) == multiset(t)
    requires RankIdentifies(s, rank)
    ensures s == t
  {
    assert |s| == |multiset(s)| == |multiset(t)| == |t|;
    if s != [] {
      var n := |s| - 1;
      assert s[n] == t[n] by {
        SameElements(s, t);
        SameLast(s, t, rank);
      }
      InitElements(s);
      InitElements(t);
      RankIdentifiesSame(s, s[..n], rank);
      SortedIsUnique(s[..n], t[..n], rank);
      assert s == s[..n] + [s[n]] && t == t[..n] + [s[n]];
    }
  }

  lemma InitElements<T>(s: seq<T>)
    requires s != []
    ensures multiset(s[..|s| - 1]) == multiset(s) - multiset{s[|s| - 1]}
  {
    assert s == s[..|s| - 1] + [s[|s| - 1]];
  }

  lemma SameLast<T(!new)>(s: seq<T>, t: seq<T>, rank: T -> Rank)
    requires SortedBy(s, rank) && SortedBy(t, rank) && RankIdentifies(s, rank)
    requires s != [] && |t| == |s| && forall x :: x in s <==> x in t
    ensures s[|s| - 1] == t[|t| - 1]
  {
    var n := |s| - 1;
    assert s[n] in t && t[n] in s;
    var i :| 0 <= i <= n && t[i] == s[n];
    var j :| 0 <= j <= n && s[j] == t[n];
    assert Leq(rank(t[i]), rank(t[n])) && Leq(rank(s[j]), rank(s[n]));
    assert SamePlace(s, rank, s[n], t[n]);
  }

  /** Sorting forgets the input's order when ranks identify elements. */
  lemma SortForgetsOrder<T(!new)>(s: seq<T>, t: seq<T>, rank: T -> Rank)
    requires multiset(s) == multiset(t) && RankIdentifies(s, rank)
    ensures SortBy(s, rank) == SortBy(t, rank)
  {
    SortBySorts(s, rank);
    SortBySorts(t, rank);
    SameElements(s, SortBy(s, rank));
    RankIdentifiesSame(s, SortBy(s, rank), rank);
    SortedIsUnique(SortBy(s, rank), SortBy(t, rank), rank);
  }

  /** The order of the input does not matter when ranks are distinct. */
  lemma SortIgnoresOrder<T(!new)>(s: seq<T>, t: seq<T>, rank: T -> Rank)
    requires multiset(s) == multiset(t) && DistinctRanks(s, rank)
    ensures SortBy(s, rank) == SortBy(t, rank)
  {
    forall x, y ensures SamePlace(s, rank, x, y) {
      if x in s && y in s && rank(x) == rank(y) { SameRankSameElement(s, rank, x, y); }
    }
    SortForgetsOrder(s, t, rank);
  }

  lemma DistinctByMultiset<T>(s: seq<T>, t: seq<T>, rank: T -> Rank)
    requires multiset(s) == multiset(t) && DistinctRanks(s, rank)
    ensures DistinctRanks(t, rank)
  {
    ReorderedDistinct(s, t);
    SameElements(s, t);
    forall i, j | 0 <= i < j < |t| ensures rank(t[i]) != rank(t[j]) {
      if rank(t[i]) == rank(t[j]) { SameRankSameElement(s, rank, t[i], t[j]); }
    }
  }

  lemma SortKeepsDistinct<T>(s: seq<T>, rank: T -> Rank)
    requires DistinctRanks(s, rank)
    ensures DistinctRanks(SortBy(s, rank), rank)
  {
    SortBySorts(s, rank);
    DistinctByMultiset(s, SortBy(s, rank), rank);
  }

  lemma {:induction false} OfRankMembers<T>(s: seq<T>, rank: T -> Rank, r: Rank)
    ensures forall x :: x in OfRank(s, rank, r) <==> x in s && rank(x) == r
  {
    if s != [] {
      OfRankMembers(s[..|s| - 1], rank, r);
      assert s == s[..|s| - 1] + [s[|s| - 1]];
    }
  }

  lemma {:induction false} OfRankConcat<T>(s: seq<T>, t: seq<T>, rank: T -> Rank, r: Rank)
    ensures OfRank(s + t, rank, r) == OfRank(s, rank, r) + OfRank(t, rank, r)
  {
    if t == [] {
      assert s + t == s;
    } else {
      assert (s + t)[..|s + t| - 1] == s + t[..|t| - 1];
      OfRankConcat(s, t[..|t| - 1], rank, r);
    }
  }

  lemma LastOfTop<T>(s: seq<T>, t: seq<T>, rank: T -> Rank)
    requires SortedBy(t, rank) && s != []
    requires forall r :: OfRank(s, rank, r) == OfRank(t, rank, r)
    ensures t != [] && Leq(rank(s[|s| - 1]), rank(t[|t| - 1]))
  {
    var x := s[|s| - 1];
    OfRankMembers(s, rank, rank(x));
    OfRankMembers(t, rank, rank(x));
    assert x in OfRank(t, rank, rank(x));
  }

  /** A stable sort has one answer: any sorted sequence with the same elements of every rank is it. */
  lemma {:induction false} StableSortIsUnique<T>(s: seq<T>, t: seq<T>, rank: T -> Rank)
    requires SortedBy(s, rank) && SortedBy(t, rank)
    requires forall r :: OfRank(s, rank, r) == OfRank(t, rank, r)
    ensures s == t
  {
    if s == [] {
      if t != [] { LastOfTop(t, s, rank); }
    } else {
      LastOfTop(s, t, rank);
      LastOfTop(t, s, rank);
      var m, n := |s| - 1, |t| - 1;
      var top := rank(s[m]);
      assert OfRank(s, rank, top) == OfRank(s[..m], rank, top) + [s[m]];
      assert OfRank(t, rank, top) == OfRank(t[..n], rank, top) + [t[n]];
      assert s[m] == OfRank(s, rank, top)[|OfRank(s, rank, top)| - 1] == t[n];
      forall r ensures OfRank(s[..m], rank, r) == OfRank(t[..n], rank, r) {
        assert OfRank(s, rank, r) == OfRank(s[..m], rank, r) + if top == r then [s[m]] else [];
        assert OfRank(t, rank, r) == OfRank(t[..n], rank, r) + if top == r then [t[n]] else [];
        if top == r {
          assert OfRank(s[..m], rank, r) == OfRank(s, rank, r)[..|OfRank(s, rank, r)| - 1];
          assert OfRank(t[..n], rank, r) == OfRank(t, rank, r)[..|OfRank(t, rank, r)| - 1];
        } else {
          assert OfRank(s[..m], rank, r) + [] == OfRank(s[..m], rank, r);
          assert OfRank(t[..n], rank, r) + [] == OfRank(t[..n], rank, r);
        }
      }
      StableSortIsUnique(s[..m], t[..n], rank);
      assert s == s[..m] + [s[m]] && t == t[..n] + [t[n]];
    }
  }

  /** Elements ranked below a bound, in their order, and the others. */
  function Below<T>(s: seq<T>, rank: T -> Rank, bound: int, below: bool): seq<T> {
    if s == [] then []
    else
      Below(s[..|s| - 1], rank, bound, below)
      + if (rank(s[|s| - 1]).major < bound) == below then [s[|s| - 1]] else []
  }

  lemma {:induction false} BelowMembers<T>(s: seq<T>, rank: T -> Rank, bound: int, below: bool)
    ensures forall x :: x in Below(s, rank, bound, below) ==> x in s && (rank(x).major < bound) == below
  {
    if s != [] { BelowMembers(s[..|s| - 1], rank, bound, below); }
  }

  lemma {:induction false} BelowOfRank<T>(s: seq<T>, rank: T -> Rank, bound: int, below: bool, r: Rank)
    ensures OfRank(Below(s, rank, bound, below), rank, r)
         == if (r.major < bound) == below then OfRank(s, rank, r) else []
  {
    if s != [] {
      var init, last := s[..|s| - 1], s[|s| - 1];
      var rest := Below(init, rank, bound, below);
      BelowOfRank(init, rank, bound, below, r);
      if (rank(last).major < bound) == below {
        assert (rest + [last])[..|rest|] == rest;
      } else {
        assert rest + [] == rest;
      }
    }
  }

  lemma SortedConcat<T>(a: seq<T>, b: seq<T>, rank: T -> Rank)
    requires SortedBy(a, rank) && SortedBy(b, rank)
    requires forall x, y :: x in a && y in b ==> Leq(rank(x), rank(y))
    ensures SortedBy(a + b, rank)
  {
    forall i, j | 0 <= i < j < |a + b| ensures Leq(rank((a + b)[i]), rank((a + b)[j])) {
      if i < |a| <= j { assert a[i] in a && b[j - |a|] in b; }
    }
  }

  lemma CutOfRank<T>(s: seq<T>, rank: T -> Rank, bound: int, r: Rank)
    ensures OfRank(SortBy(Below(s, rank, bound, true), rank) + SortBy(Below(s, rank, bound, false), rank), rank, r)
         == OfRank(s, rank, r)
  {
    var lo, hi := Below(s, rank, bound, true), Below(s, rank, bound, false);
    SortBySorts(lo, rank);
    SortBySorts(hi, rank);
    OfRankConcat(SortBy(lo, rank), SortBy(hi, rank), rank, r);
    BelowOfRank(s, rank, bound, true, r);
    BelowOfRank(s, rank, bound, false, r);
    assert OfRank(s, rank, r) + [] == [] + OfRank(s, rank, r) == OfRank(s, rank, r);
  }

  lemma CutIsSorted<T>(s: seq<T>, rank: T -> Rank, bound: int)
    ensures SortedBy(SortBy(Below(s, rank, bound, true), rank) + SortBy(Below(s, rank, bound, false), rank), rank)
  {
    var lo, hi := Below(s, rank, bound, true), Below(s, rank, bound, false);
    forall x, y | x in SortBy(lo, rank) && y in SortBy(hi, rank) ensures Leq(rank(x), rank(y)) {
      SortMember(lo, rank, x);
      SortMember(hi, rank, y);
      BelowMembers(s, rank, bound, true);
      BelowMembers(s, rank, bound, false);
    }
    SortBySorts(lo, rank);
    SortBySorts(hi, rank);
    SortedConcat(SortBy(lo, rank), SortBy(hi, rank), rank);
  }

  /** Sorting cuts at any bound into sorting the two sides. */
  lemma SortCuts<T>(s: seq<T>, rank: T -> Rank, bound: int)
    ensures SortBy(s, rank) == SortBy(Below(s, rank, bound, true), rank) + SortBy(Below(s, rank, bound, false), rank)
  {
    var cut := SortBy(Below(s, rank, bound, true), rank) + SortBy(Below(s, rank, bound, false), rank);
    SortBySorts(s, rank);
    CutIsSorted(s, rank, bound);
    forall r ensures OfRank(SortBy(s, rank), rank, r) == OfRank(cut, rank, r) {
      CutOfRank(s, rank, bound, r);
    }
    StableSortIsUnique(SortBy(s, rank), cut, rank);
  }

  lemma {:induction false} InsertCongruence<T>(s: seq<T>, x: T, r1: T -> Rank, r2: T -> Rank)
    requires r1(x) == r2(x) && forall y :: y in s ==> r1(y) == r2(y)
    ensures InsertByRank(s, x, r1) == InsertByRank(s, x, r2)
  {
    if !(s == [] || Leq(r1(s[|s| - 1]), r1(x))) { InsertCongruence(s[..|s| - 1], x, r1, r2); }
  }

  /** Only the ranks of the elements present matter. */
  lemma {:induction false} SortCongruence<T>(s: seq<T>, r1: T -> Rank, r2: T -> Rank)
    requires forall y :: y in s ==> r1(y) == r2(y)
    ensures SortBy(s, r1) == SortBy(s, r2)
  {
    if s != [] {
      var init, last := s[..|s| - 1], s[|s| - 1];
      SortCongruence(init, r1, r2);
      forall y | y in SortBy(init, r1) ensures r1(y) == r2(y) { SortMember(init, r1, y); }
      InsertCongruence(SortBy(init, r1), last, r1, r2);
    }
  }
}
