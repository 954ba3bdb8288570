/** Small facts about sequences. */
module Seqs {

  lemma PrefixSnoc<T>(s: seq<T>, n: nat)
    requires n < |s|
    ensures s[..n + 1] == s[..n] + [s[n]]
  {
  }

  lemma FullPrefix<T>(s: seq<T>)
    ensures s[..|s|] == s
  {
  }

  /** `t` is what stands in `s` at the positions `at`, in their order. */
  ghost predicate Picks<T>(s: seq<T>, at: seq<nat>, t: seq<T>) {
    && |at| == |t|
    && (forall k :: 0 <= k < |t| ==> at[k] < |s| && t[k] == s[at[k]])
    && forall j, k :: 0 <= j < k < |at| ==> at[j] < at[k]
  }

  lemma PicksSnoc<T>(s: seq<T>, at: seq<nat>, t: seq<T>, x: T)
    requires Picks(s, at, t)
    ensures Picks(s + [x], at, t) && Picks(s + [x], at + [|s|], t + [x])
  {
    assert forall k :: 0 <= k < |at| ==> at[k] < |s|;
  }

  ghost predicate Distinct<T>(s: seq<T>) {
    forall i, j :: 0 <= i < j < |s| ==> s[i] != s[j]
  }

  lemma {:induction false} AtMostOnce<T>(s: seq<T>, x: T)
    requires Distinct(s)
    ensures multiset(s)[x] == if x in s then 1 else 0
  {
    if s != [] {
      var n := |s| - 1;
      AtMostOnce(s[..n], x);
      assert s == s[..n] + [s[n]];
    }
  }

  /** Where an element first stands. */
  function FirstAt<T(==)>(s: seq<T>, x: T): (i: nat)
    requires x in s
    ensures i < |s| && s[i] == x && x !in s[..i]
  {
    if s[0] == x then 0
    else
      assert x in s[1..];
      var i := 1 + FirstAt(s[1..], x);
      assert s[..i] == [s[0]] + s[1..][..i - 1];
      i
  }

  lemma {:induction false} FirstAtIs<T>(s: seq<T>, x: T, i: nat)
    requires i < |s| && s[i] == x && x !in s[..i]
    ensures FirstAt(s, x) == i
  {
    if i > 0 {
      assert s[..i] == [s[0]] + s[1..][..i - 1];
      FirstAtIs(s[1..], x, i - 1);
    }
  }

  lemma FirstAtPrefix<T>(s: seq<T>, more: T, x: T)
    requires x in s
    ensures FirstAt(s + [more], x) == FirstAt(s, x)
  {
    var i := FirstAt(s, x);
    assert (s + [more])[..i] == s[..i];
    FirstAtIs(s + [more], x, i);
  }

  /** The elements of `t` come in the order in which they first stand in `s`. */
  ghost predicate ByFirstPlace<T>(s: seq<T>, t: seq<T>) {
    && (forall x :: x in t ==> x in s)
    && forall i, j :: 0 <= i < j < |t| ==> FirstAt(s, t[i]) <= FirstAt(s, t[j])
  }

  /** A list of first appearances, one more element seen. */
  lemma FirstPlaceSnoc<T>(s: seq<T>, t: seq<T>, x: T)
    requires ByFirstPlace(s, t) && (forall y :: y in s ==> y in t)
    ensures ByFirstPlace(s + [x], if x in t then t else t + [x])
  {
    forall y | y in s ensures FirstAt(s + [x], y) == FirstAt(s, y) < |s| { FirstAtPrefix(s, x, y); }
    if x !in s { FirstAtIs(s + [x], x, |s|); }
  }

  /** Whether elements repeat does not depend on their order. */
  lemma ReorderedDistinct<T>(s: seq<T>, t: seq<T>)
    requires Distinct(s) && multiset(s) == multiset(t)
    ensures Distinct(t)
  {
    forall i, j | 0 <= i < j < |t| ensures t[i] != t[j] {
      AtMostOnce(s, t[i]);
      assert t == t[..i] + [t[i]] + t[i + 1..j] + [t[j]] + t[j + 1..];
      assert t[i] == t[j] ==> multiset(t)[t[i]] >= 2;
    }
  }

  lemma Assoc<T>(a: seq<T>, b: seq<T>, c: seq<T>)
    ensures (a + b) + c == a + (b + c)
  {
  }
}
