/** The multiset difference printed when two oracle texts disagree. */
module LineDiff {
  import opened Seqs

  /** How often `l` stands among the first `n` lines. */
  function Seen(lines: seq<string>, n: nat, l: string): nat
    requires n <= |lines|
  {
    if n == 0 then 0 else Seen(lines, n - 1, l) + if lines[n - 1] == l then 1 else 0
  }

  /** Of the first `n` lines of `cand`, those past the base's last copy, in order. */
  function SurplusUpTo(cand: seq<string>, n: nat, base: seq<string>): seq<string>
    requires n <= |cand|
  {
    if n == 0 then []
    else
      var l := cand[n - 1];
      SurplusUpTo(cand, n - 1, base) + if Seen(cand, n - 1, l) >= Seen(base, |base|, l) then [l] else []
  }

  function Surplus(cand: seq<string>, base: seq<string>): seq<string> {
    SurplusUpTo(cand, |cand|, base)
  }

  function Repeat(l: string, n: nat): seq<string> {
    if n == 0 then [] else Repeat(l, n - 1) + [l]
  }

  /** Distinct lines in order of first appearance, the key order of the counting map. */
  function FirstSeen(lines: seq<string>): seq<string> {
    if lines == [] then []
    else
      var seen, last := FirstSeen(lines[..|lines| - 1]), lines[|lines| - 1];
      if last in seen then seen else seen + [last]
  }

  function Minus(a: nat, b: nat): nat {
    if a > b then a - b else 0
  }

  /** For each distinct base line in order, the copies `cand` does not match. */
  function Missing(keys: seq<string>, base: seq<string>, cand: seq<string>): seq<string> {
    if keys == [] then []
    else
      var last := keys[|keys| - 1];
      Missing(keys[..|keys| - 1], base, cand)
      + Repeat(last, Minus(Seen(base, |base|, last), Seen(cand, |cand|, last)))
  }

  method CountLines(lines: seq<string>) returns (order: seq<string>, count: map<string, nat>)
    ensures order == FirstSeen(lines)
    ensures forall l :: l in count <==> l in order
    ensures forall l :: (if l in count then count[l] else 0) == Seen(lines, |lines|, l)
  {
    order, count := [], map[];
    for n := 0 to |lines|
      invariant order == FirstSeen(lines[..n])
      invariant forall l :: l in count <==> l in order
      invariant forall l :: (if l in count then count[l] else 0) == Seen(lines, n, l)
    {
      PrefixSnoc(lines, n);
      assert lines[..n + 1][..n] == lines[..n];
      var l := lines[n];
      if l !in count { order := order + [l]; }
      count := count[l := (if l in count then count[l] else 0) + 1];
    }
    FullPrefix(lines);
  }

  /** Counts the base lines, strikes them off by the candidate's, and lists what is left on each side. */
  method PrintDiff(base: seq<string>, cand: seq<string>) returns (onlyBase: seq<string>, onlyCand: seq<string>)
    ensures onlyCand == Surplus(cand, base)
    ensures onlyBase == Missing(FirstSeen(base), base, cand)
  {
    var order, count := CountLines(base);
    onlyCand := [];
    for n := 0 to |cand|
      invariant onlyCand == SurplusUpTo(cand, n, base)
      invariant forall l :: l in order ==> l in count
      invariant forall l :: (if l in count then count[l] else 0) == Minus(Seen(base, |base|, l), Seen(cand, n, l))
    {
      var l := cand[n];
      var left := if l in count then count[l] else 0;
      if left > 0 { count := count[l := left - 1]; } else { onlyCand := onlyCand + [l]; }
    }
    onlyBase := [];
    for k := 0 to |order|
      invariant onlyBase == Missing(order[..k], base, cand)
    {
      PrefixSnoc(order, k);
      assert order[..k + 1][..k] == order[..k];
      onlyBase := onlyBase + Repeat(order[k], count[order[k]]);
    }
    FullPrefix(order);
  }

  // ---- What the two lists mean ----

  lemma {:induction false} SeenIsMultiplicity(lines: seq<string>, n: nat, l: string)
    requires n <= |lines|
    ensures Seen(lines, n, l) == multiset(lines[..n])[l]
  {
    if n > 0 {
      SeenIsMultiplicity(lines, n - 1, l);
      PrefixSnoc(lines, n - 1);
    }
  }

  lemma {:induction false} SurplusMultiplicity(cand: seq<string>, base: seq<string>, n: nat, l: string)
    requires n <= |cand|
    ensures multiset(SurplusUpTo(cand, n, base))[l] == Minus(Seen(cand, n, l), Seen(base, |base|, l))
  {
    if n > 0 { SurplusMultiplicity(cand, base, n - 1, l); }
  }

  lemma {:induction false} RepeatMultiplicity(x: string, n: nat, l: string)
    ensures multiset(Repeat(x, n))[l] == if l == x then n else 0
  {
    if n > 0 { RepeatMultiplicity(x, n - 1, l); }
  }

  lemma {:induction false} FirstSeenFacts(lines: seq<string>)
    ensures forall l :: l in FirstSeen(lines) <==> l in lines
    ensures forall i, j :: 0 <= i < j < |FirstSeen(lines)| ==> FirstSeen(lines)[i] != FirstSeen(lines)[j]
  {
    if lines != [] {
      FirstSeenFacts(lines[..|lines| - 1]);
      assert lines == lines[..|lines| - 1] + [lines[|lines| - 1]];
    }
  }

  lemma {:induction false} MissingMultiplicity(keys: seq<string>, base: seq<string>, cand: seq<string>, l: string)
    requires forall i, j :: 0 <= i < j < |keys| ==> keys[i] != keys[j]
    ensures multiset(Missing(keys, base, cand))[l]
         == if l in keys then Minus(Seen(base, |base|, l), Seen(cand, |cand|, l)) else 0
  {
    if keys != [] {
      var n := |keys| - 1;
      MissingMultiplicity(keys[..n], base, cand, l);
      RepeatMultiplicity(keys[n], Minus(Seen(base, |base|, keys[n]), Seen(cand, |cand|, keys[n])), l);
      assert keys == keys[..n] + [keys[n]];
    }
  }

  /** The lists are the two multiset differences. */
  lemma DifferenceLists(base: seq<string>, cand: seq<string>)
    ensures multiset(Surplus(cand, base)) == multiset(cand) - multiset(base)
    ensures multiset(Missing(FirstSeen(base), base, cand)) == multiset(base) - multiset(cand)
  {
    FirstSeenFacts(base);
    FullPrefix(base);
    FullPrefix(cand);
    forall l
      ensures multiset(Surplus(cand, base))[l] == (multiset(cand) - multiset(base))[l]
      ensures multiset(Missing(FirstSeen(base), base, cand))[l] == (multiset(base) - multiset(cand))[l]
    {
      SurplusMultiplicity(cand, base, |cand|, l);
      MissingMultiplicity(FirstSeen(base), base, cand, l);
      SeenIsMultiplicity(base, |base|, l);
      SeenIsMultiplicity(cand, |cand|, l);
      assert l in base <==> l in multiset(base);
    }
  }

  /**
   * Each text is a common part plus its own list; the lists share no line; and both are empty exactly
   * when the texts hold the same lines in some order.
   */
  lemma DifferenceIsExact(base: seq<string>, cand: seq<string>)
    ensures var onlyBase, onlyCand := Missing(FirstSeen(base), base, cand), Surplus(cand, base);
            && multiset(base) == multiset(base) * multiset(cand) + multiset(onlyBase)
            && multiset(cand) == multiset(base) * multiset(cand) + multiset(onlyCand)
            && multiset(onlyBase) !! multiset(onlyCand)
            && (onlyBase == [] && onlyCand == [] <==> multiset(base) == multiset(cand))
  {
    DifferenceLists(base, cand);
    MultisetSplit(multiset(base), multiset(cand));
    EmptyMultiset(Missing(FirstSeen(base), base, cand));
    EmptyMultiset(Surplus(cand, base));
  }

  lemma MultisetSplit(a: multiset<string>, b: multiset<string>)
    ensures a == a * b + (a - b) && b == a * b + (b - a) && (a - b) !! (b - a)
    ensures a - b == multiset{} && b - a == multiset{} <==> a == b
  {
    if a - b == multiset{} && b - a == multiset{} {
      assert a == a * b + (a - b) && b == a * b + (b - a);
    }
  }

  lemma EmptyMultiset(s: seq<string>)
    ensures s == [] <==> multiset(s) == multiset{}
  {
    assert |s| == |multiset(s)|;
  }

  // ---- The order they are printed in ----

  /** The line stands past as many copies of it as the base has. */
  predicate IsSurplus(cand: seq<string>, base: seq<string>, i: nat) {
    i < |cand| && Seen(cand, i, cand[i]) >= Seen(base, |base|, cand[i])
  }

  lemma {:induction false} SurplusPicks(cand: seq<string>, n: nat, base: seq<string>) returns (at: seq<nat>)
    requires n <= |cand|
    ensures Picks(cand[..n], at, SurplusUpTo(cand, n, base))
    ensures forall i: nat :: i in at <==> i < n && IsSurplus(cand, base, i)
  {
    at := [];
    if n > 0 {
      var m := n - 1;
      var before := SurplusPicks(cand, m, base);
      at := before + if IsSurplus(cand, base, m) then [m] else [];
      SurplusPicksSnoc(cand, m, base, before);
      MembersSnoc(before, m);
      assert before + [] == before;
    }
  }

  lemma SurplusPicksSnoc(cand: seq<string>, m: nat, base: seq<string>, before: seq<nat>)
    requires m < |cand| && Picks(cand[..m], before, SurplusUpTo(cand, m, base))
    ensures Picks(cand[..m + 1], before + if IsSurplus(cand, base, m) then [m] else [], SurplusUpTo(cand, m + 1, base))
  {
    var t := SurplusUpTo(cand, m, base);
    PicksSnoc(cand[..m], before, t, cand[m]);
    PrefixSnoc(cand, m);
    assert before + [] == before && t + [] == t;
  }

  lemma MembersSnoc(at: seq<nat>, x: nat)
    ensures forall i: nat :: i in at + [x] <==> i in at || i == x
  {
  }

  /** The candidate's surplus lines stand in its own order: each line past as many copies as the base has. */
  lemma SurplusInOrder(cand: seq<string>, base: seq<string>) returns (at: seq<nat>)
    ensures Picks(cand, at, Surplus(cand, base))
    ensures forall i: nat :: i in at <==> i < |cand| && multiset(cand[..i])[cand[i]] >= multiset(base)[cand[i]]
  {
    at := SurplusPicks(cand, |cand|, base);
    FullPrefix(cand);
    FullPrefix(base);
    forall i: nat | i < |cand|
      ensures Seen(cand, i, cand[i]) == multiset(cand[..i])[cand[i]]
      ensures Seen(base, |base|, cand[i]) == multiset(base)[cand[i]]
    {
      SeenIsMultiplicity(cand, i, cand[i]);
      SeenIsMultiplicity(base, |base|, cand[i]);
    }
  }

  /** Distinct lines are listed by where they first stand. */
  lemma {:induction false} FirstSeenInOrder(lines: seq<string>)
    ensures ByFirstPlace(lines, FirstSeen(lines))
  {
    FirstSeenFacts(lines);
    if lines != [] {
      var n := |lines| - 1;
      var init, last := lines[..n], lines[n];
      assert lines == init + [last];
      FirstSeenInOrder(init);
      FirstSeenFacts(init);
      FirstPlaceSnoc(init, FirstSeen(init), last);
    }
  }

  lemma RepeatSame(l: string, n: nat)
    ensures |Repeat(l, n)| == n && forall k :: 0 <= k < n ==> Repeat(l, n)[k] == l
  {
  }

  lemma ByPlaceConcat(base: seq<string>, a: seq<string>, b: seq<string>)
    requires ByFirstPlace(base, a) && ByFirstPlace(base, b)
    requires forall i, j :: 0 <= i < |a| && 0 <= j < |b| ==> FirstAt(base, a[i]) <= FirstAt(base, b[j])
    ensures ByFirstPlace(base, a + b)
  {
  }

  lemma {:induction false} MissingByKeys(keys: seq<string>, base: seq<string>, cand: seq<string>)
    requires ByFirstPlace(base, keys)
    ensures ByFirstPlace(base, Missing(keys, base, cand))
    ensures forall i :: 0 <= i < |Missing(keys, base, cand)| ==> Missing(keys, base, cand)[i] in keys
  {
    if keys != [] {
      var n := |keys| - 1;
      var rest, count := Missing(keys[..n], base, cand), Minus(Seen(base, |base|, keys[n]), Seen(cand, |cand|, keys[n]));
      MissingByKeys(keys[..n], base, cand);
      RepeatSame(keys[n], count);
      forall i | 0 <= i < |rest| ensures rest[i] in keys && FirstAt(base, rest[i]) <= FirstAt(base, keys[n]) {
        var k :| 0 <= k < n && keys[..n][k] == rest[i];
        assert keys[k] == rest[i];
      }
      ByPlaceConcat(base, rest, Repeat(keys[n], count));
    }
  }

  /** The base's missing lines are grouped, each where its line first stands in the base. */
  lemma MissingInOrder(base: seq<string>, cand: seq<string>)
    ensures ByFirstPlace(base, Missing(FirstSeen(base), base, cand))
  {
    FirstSeenInOrder(base);
    MissingByKeys(FirstSeen(base), base, cand);
  }
}
