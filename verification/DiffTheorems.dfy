/** What the diff promises as a whole: it is shortest, and the overlap figure measures kept text. */
module DiffTheorems {
  import opened Text
  import opened Tokens
  import opened EditScript
  import opened WordDiff

  // ---- Shortest ----

  /** Tokens shown in parts of one kind. */
  function TokensIn(parts: seq<DiffPart>, kind: Kind): nat {
    if parts == [] then 0
    else
      var last := parts[|parts| - 1];
      TokensIn(parts[..|parts| - 1], kind) + if last.kind == kind then |Tokenise(last.text)| else 0
  }

  function EditsOf(script: seq<Edit<string>>, kind: Kind): nat {
    if script == [] then 0 else (if KindOf(script[0]) == kind then 1 else 0) + EditsOf(script[1..], kind)
  }

  lemma {:induction false} EditsAdd(script: seq<Edit<string>>)
    ensures EditsOf(script, Same) == Kept(script)
    ensures EditsOf(script, Add) + EditsOf(script, Del) == Cost(script)
  {
    if script != [] { EditsAdd(script[1..]); }
  }

  lemma {:induction false} AlternatingSlice(ts: seq<string>, space: bool, p: nat, q: nat)
    requires Alternating(ts, space) && p <= q <= |ts|
    ensures IsTokenList(ts[p..q])
    decreases q
  {
    if p > 0 {
      AlternatingSlice(ts[1..], !space, p - 1, q - 1);
      assert ts[1..][p - 1..q - 1] == ts[p..q];
    } else if q > 0 {
      AlternatingPrefix(ts, space, q);
      assert ts[..q] == ts[0..q];
    }
  }

  lemma {:induction false} AlternatingPrefix(ts: seq<string>, space: bool, q: nat)
    requires Alternating(ts, space) && q <= |ts|
    ensures Alternating(ts[..q], space)
  {
    if q > 0 {
      AlternatingPrefix(ts[1..], !space, q - 1);
      assert ts[..q][1..] == ts[1..][..q - 1];
    }
  }

  lemma {:induction false} JoinSnoc(ts: seq<string>, t: string)
    ensures Join(ts + [t]) == Join(ts) + t
  {
    if ts == [] {
      assert [] + [t] == [t];
    } else {
      assert (ts + [t])[1..] == ts[1..] + [t];
      JoinSnoc(ts[1..], t);
    }
  }

  /** Consecutive tokens of a text, joined, are cut back into the same tokens. */
  lemma SliceKeepsTokens(ts: seq<string>, p: nat, q: nat)
    requires IsTokenList(ts) && p <= q <= |ts|
    ensures |Tokenise(Join(ts[p..q]))| == q - p
  {
    AlternatingSlice(ts, Alternating(ts, true), p, q);
    TokeniseIsUnique(Join(ts[p..q]), ts[p..q]);
  }

  /** `text` is what the tokens from some earlier index up to `i` say. */
  ghost predicate EndsAt(text: string, ts: seq<string>, i: nat) {
    i <= |ts| && exists p :: 0 <= p < i && text == Join(ts[p..i])
  }

  ghost predicate LastPartEndsAt(out: seq<DiffPart>, x: seq<string>, y: seq<string>, i: nat, j: nat) {
    out != [] ==>
      var last := out[|out| - 1];
      (last.kind != Add ==> EndsAt(last.text, x, i)) && (last.kind != Del ==> EndsAt(last.text, y, j))
  }

  lemma ExtendPart(text: string, ts: seq<string>, i: nat)
    requires IsTokenList(ts) && i < |ts| && EndsAt(text, ts, i)
    ensures EndsAt(text + ts[i], ts, i + 1) && |Tokenise(text + ts[i])| == |Tokenise(text)| + 1
  {
    var p :| 0 <= p < i && text == Join(ts[p..i]);
    JoinNext(ts, p, i);
    SliceKeepsTokens(ts, p, i);
    SliceKeepsTokens(ts, p, i + 1);
  }

  lemma JoinNext(ts: seq<string>, p: nat, i: nat)
    requires p <= i < |ts|
    ensures Join(ts[p..i + 1]) == Join(ts[p..i]) + ts[i]
  {
    assert ts[p..i + 1] == ts[p..i] + [ts[i]];
    JoinSnoc(ts[p..i], ts[i]);
  }

  lemma StartPart(ts: seq<string>, i: nat)
    requires IsTokenList(ts) && i < |ts|
    ensures EndsAt(ts[i], ts, i + 1) && |Tokenise(ts[i])| == 1
  {
    assert ts[i..i + 1] == [ts[i]];
    JoinSnoc([], ts[i]);
    assert [] + [ts[i]] == [ts[i]];
    SliceKeepsTokens(ts, i, i + 1);
  }

  /** Pushing the next token adds one token to the parts of its kind. */
  lemma PushCounts(out: seq<DiffPart>, ts: seq<string>, i: nat, kind: Kind, k: Kind)
    requires IsTokenList(ts) && i < |ts|
    requires out != [] && out[|out| - 1].kind == kind ==> EndsAt(out[|out| - 1].text, ts, i)
    ensures var next := Push(out, ts[i], kind);
            && TokensIn(next, k) == TokensIn(out, k) + (if k == kind then 1 else 0)
            && next != [] && next[|next| - 1].kind == kind && EndsAt(next[|next| - 1].text, ts, i + 1)
  {
    var next := Push(out, ts[i], kind);
    if out != [] && out[|out| - 1].kind == kind {
      ExtendPart(out[|out| - 1].text, ts, i);
      assert next[..|next| - 1] == out[..|out| - 1];
    } else {
      StartPart(ts, i);
      assert next[..|next| - 1] == out;
    }
  }

  lemma WalkEdits(x: seq<string>, y: seq<string>, i: nat, j: nat, k: Kind)
    requires i <= |x| && j <= |y| && (i < |x| || j < |y|)
    ensures EditsOf(Walk(x, y, i, j), k) ==
            if i < |x| && j < |y| && x[i] == y[j] then
              (if k == Same then 1 else 0) + EditsOf(Walk(x, y, i + 1, j + 1), k)
            else if i < |x| && (j == |y| || Lcs(x, y, i + 1, j) >= Lcs(x, y, i, j + 1)) then
              (if k == Del then 1 else 0) + EditsOf(Walk(x, y, i + 1, j), k)
            else (if k == Add then 1 else 0) + EditsOf(Walk(x, y, i, j + 1), k)
  {
    var w := Walk(x, y, i, j);
    assert w == [w[0]] + w[1..];
  }

  lemma {:induction false} WalkCounts(x: seq<string>, y: seq<string>, i: nat, j: nat, out: seq<DiffPart>, k: Kind)
    requires IsTokenList(x) && IsTokenList(y) && i <= |x| && j <= |y| && LastPartEndsAt(out, x, y, i, j)
    ensures TokensIn(PushAll(out, Walk(x, y, i, j)), k) == TokensIn(out, k) + EditsOf(Walk(x, y, i, j), k)
    decreases |x| - i + |y| - j
  {
    if i < |x| || j < |y| {
      WalkStep(x, y, i, j, out);
      WalkEdits(x, y, i, j, k);
      if i < |x| && j < |y| && x[i] == y[j] {
        PushKeeps(out, x, y, i, j, Same, k);
        WalkCounts(x, y, i + 1, j + 1, Push(out, x[i], Same), k);
      } else if i < |x| && (j == |y| || Lcs(x, y, i + 1, j) >= Lcs(x, y, i, j + 1)) {
        PushKeeps(out, x, y, i, j, Del, k);
        WalkCounts(x, y, i + 1, j, Push(out, x[i], Del), k);
      } else {
        PushKeeps(out, x, y, i, j, Add, k);
        WalkCounts(x, y, i, j + 1, Push(out, y[j], Add), k);
      }
    }
  }

  /** Pushing the walk's next token counts it and leaves the last part ending where the walk stands. */
  lemma PushKeeps(out: seq<DiffPart>, x: seq<string>, y: seq<string>, i: nat, j: nat, kind: Kind, k: Kind)
    requires IsTokenList(x) && IsTokenList(y) && i <= |x| && j <= |y| && LastPartEndsAt(out, x, y, i, j)
    requires (kind != Add ==> i < |x|) && (kind != Del ==> j < |y|) && (kind == Same ==> x[i] == y[j])
    ensures var next := Push(out, if kind == Add then y[j] else x[i], kind);
            && TokensIn(next, k) == TokensIn(out, k) + (if k == kind then 1 else 0)
            && LastPartEndsAt(next, x, y, if kind == Add then i else i + 1, if kind == Del then j else j + 1)
  {
    if kind != Add { PushCounts(out, x, i, kind, k); }
    if kind != Del { PushCounts(out, y, j, kind, k); }
  }

  ghost predicate IsScript(a: string, b: string, script: seq<Edit<string>>) {
    Source(script) == Tokenise(a) && Target(script) == Tokenise(b)
  }

  /** Tokens the diff shows as changed. */
  function DiffCost(a: string, b: string): nat {
    TokensIn(Diff(a, b), Del) + TokensIn(Diff(a, b), Add)
  }

  lemma DiffCounts(a: string, b: string)
    ensures var x, y := Tokenise(a), Tokenise(b);
            && IsScript(a, b, Walk(x, y, 0, 0))
            && Cost(Walk(x, y, 0, 0)) == |x| + |y| - 2 * Lcs(x, y, 0, 0)
            && TokensIn(Diff(a, b), Same) == (if |x| * |y| <= 40_000 then Lcs(x, y, 0, 0) else 0)
            && DiffCost(a, b) == |x| + |y| - if |x| * |y| <= 40_000 then 2 * Lcs(x, y, 0, 0) else 0
  {
    var x, y := Tokenise(a), Tokenise(b);
    var w := Walk(x, y, 0, 0);
    TokeniseIsUnique(a, x);
    TokeniseIsUnique(b, y);
    WalkKeepsLcs(x, y, 0, 0);
    CostByKept(w);
    EditsAdd(w);
    if Fits(a, b) {
      WalkCounts(x, y, 0, 0, [], Same);
      WalkCounts(x, y, 0, 0, [], Del);
      WalkCounts(x, y, 0, 0, [], Add);
    } else {
      SwapCounts(a, b, Same);
      SwapCounts(a, b, Del);
      SwapCounts(a, b, Add);
    }
  }

  lemma TokensSnoc(parts: seq<DiffPart>, part: DiffPart, k: Kind)
    ensures TokensIn(parts + [part], k) == TokensIn(parts, k) + if part.kind == k then |Tokenise(part.text)| else 0
  {
    assert (parts + [part])[..|parts|] == parts;
  }

  lemma SwapCounts(a: string, b: string, k: Kind)
    ensures TokensIn([DiffPart(a, Del), DiffPart(b, Add)], k)
         == match k case Same => 0 case Del => |Tokenise(a)| case Add => |Tokenise(b)|
  {
    TokensSnoc([], DiffPart(a, Del), k);
    TokensSnoc([DiffPart(a, Del)], DiffPart(b, Add), k);
    assert [] + [DiffPart(a, Del)] == [DiffPart(a, Del)];
    assert [DiffPart(a, Del)] + [DiffPart(b, Add)] == [DiffPart(a, Del), DiffPart(b, Add)];
  }

  /** The diff is a shortest script exactly when the limit is met or the texts share no token. */
  lemma DiffIsShortest(a: string, b: string)
    ensures (forall script :: IsScript(a, b, script) ==> DiffCost(a, b) <= Cost(script))
       <==> |Tokenise(a)| * |Tokenise(b)| <= 40_000 || forall t :: t in Tokenise(a) ==> t !in Tokenise(b)
    ensures |Tokenise(a)| * |Tokenise(b)| <= 40_000 ==>
              forall script :: IsScript(a, b, script) ==> Kept(script) <= TokensIn(Diff(a, b), Same)
  {
    var x, y := Tokenise(a), Tokenise(b);
    DiffCounts(a, b);
    LcsZero(x, y, 0, 0);
    NoneSharedMembers(x, y);
    forall script | IsScript(a, b, script)
      ensures Kept(script) <= Lcs(x, y, 0, 0) && Cost(script) == |x| + |y| - 2 * Kept(script)
    {
      KeptAtMostLcs(x, y, 0, 0, script);
      CostByKept(script);
    }
  }

  /**
   * Within the limit the diff is the merged runs of a shortest script, and of the one that comes first:
   * every other shortest script has, where they first differ, a later turn.
   */
  lemma DiffIsFirstShortest(a: string, b: string) returns (w: seq<Edit<string>>)
    requires |Tokenise(a)| * |Tokenise(b)| <= 40_000
    ensures IsScript(a, b, w) && Diff(a, b) == PushAll([], w)
    ensures forall script :: IsScript(a, b, script) ==>
              Cost(w) < Cost(script) || script == w || (Cost(script) == Cost(w) && Sooner(w, script))
  {
    var x, y := Tokenise(a), Tokenise(b);
    w := Walk(x, y, 0, 0);
    DiffCounts(a, b);
    forall script | IsScript(a, b, script)
      ensures Cost(w) < Cost(script) || script == w || (Cost(script) == Cost(w) && Sooner(w, script))
    {
      WalkIsShortest(x, y, script);
      if Cost(script) <= Cost(w) { WalkIsFirstShortest(x, y, script); }
    }
  }

  // ---- Overlap ----

  /** Non-space length of the parts of one kind. */
  function NonSpaceIn(parts: seq<DiffPart>, kind: Kind): nat {
    if parts == [] then 0
    else
      var last := parts[|parts| - 1];
      NonSpaceIn(parts[..|parts| - 1], kind) + if last.kind == kind then NonSpaceLength(last.text) else 0
  }

  function Overlap(parts: seq<DiffPart>): real {
    var same := NonSpaceIn(parts, Same);
    var total := same + Max(NonSpaceIn(parts, Add), NonSpaceIn(parts, Del));
    if total == 0 then 1.0 else same as real / total as real
  }

  lemma {:induction false} NonSpaceSides(parts: seq<DiffPart>)
    ensures NonSpaceLength(JoinWithout(parts, Add)) == NonSpaceIn(parts, Same) + NonSpaceIn(parts, Del)
    ensures NonSpaceLength(JoinWithout(parts, Del)) == NonSpaceIn(parts, Same) + NonSpaceIn(parts, Add)
  {
    if parts != [] {
      var init, last := parts[..|parts| - 1], parts[|parts| - 1];
      NonSpaceSides(init);
      NonSpaceLengthConcat(JoinWithout(init, Add), if last.kind == Add then "" else last.text);
      NonSpaceLengthConcat(JoinWithout(init, Del), if last.kind == Del then "" else last.text);
    }
  }

  lemma DivideInUnit(k: nat, m: nat)
    requires k <= m && 0 < m
    ensures 0.0 <= k as real / m as real <= 1.0
    ensures k as real / m as real == 1.0 <==> k == m
  {
    assert (k as real / m as real) * m as real == k as real;
  }

  lemma OverlapOfParts(parts: seq<DiffPart>)
    ensures var old_, new_ := NonSpaceLength(JoinWithout(parts, Add)), NonSpaceLength(JoinWithout(parts, Del));
            var kept, larger := NonSpaceIn(parts, Same), Max(old_, new_);
            && kept <= old_ && kept <= new_
            && Overlap(parts) == (if larger == 0 then 1.0 else kept as real / larger as real)
            && 0.0 <= Overlap(parts) <= 1.0
            && (Overlap(parts) == 1.0 <==> kept == larger)
  {
    NonSpaceSides(parts);
    var kept := NonSpaceIn(parts, Same);
    var larger := kept + Max(NonSpaceIn(parts, Add), NonSpaceIn(parts, Del));
    if larger != 0 { DivideInUnit(kept, larger); }
  }

  /** Overlap is the kept non-space text over the larger text's, a figure in [0, 1]. */
  lemma OverlapIsKeptShare(a: string, b: string)
    ensures var kept, larger := NonSpaceIn(Diff(a, b), Same), Max(NonSpaceLength(a), NonSpaceLength(b));
            && kept <= NonSpaceLength(a) && kept <= NonSpaceLength(b)
            && Overlap(Diff(a, b)) == (if larger == 0 then 1.0 else kept as real / larger as real)
            && 0.0 <= Overlap(Diff(a, b)) <= 1.0
            && (Overlap(Diff(a, b)) == 1.0 <==> kept == larger)
  {
    DiffRoundTrip(a, b);
    OverlapOfParts(Diff(a, b));
  }

  lemma EqualShares(k: nat, n: nat, m: nat)
    requires 0 < n <= m
    ensures k as real / n as real == k as real / m as real <==> k == 0 || n == m
  {
    var p, q := k as real / n as real, k as real / m as real;
    assert p * n as real == k as real && q * m as real == k as real;
    if p == q && k > 0 {
      assert p > 0.0;
      assert p * n as real == p * m as real;
    }
  }

  /**
   * The figure is described as a share of the new text. It is that share exactly when nothing was
   * kept or the new text is at least as long as the old one.
   */
  lemma OverlapAsShareOfNewText(a: string, b: string)
    requires NonSpaceLength(b) > 0
    ensures var kept := NonSpaceIn(Diff(a, b), Same);
            (Overlap(Diff(a, b)) == kept as real / NonSpaceLength(b) as real)
              <==> (kept == 0 || NonSpaceLength(a) <= NonSpaceLength(b))
  {
    OverlapIsKeptShare(a, b);
    EqualShares(NonSpaceIn(Diff(a, b), Same), NonSpaceLength(b), Max(NonSpaceLength(a), NonSpaceLength(b)));
  }

  // ---- Equal texts ----

  lemma {:induction false} SelfWalk(x: seq<string>, i: nat, out: seq<DiffPart>)
    requires i <= |x| && out == if i == 0 then [] else [DiffPart(Join(x[..i]), Same)]
    ensures PushAll(out, Walk(x, x, i, i)) == if x == [] then [] else [DiffPart(Join(x), Same)]
    decreases |x| - i
  {
    if i < |x| {
      WalkStep(x, x, i, i, out);
      SelfPush(x, i, out);
      SelfWalk(x, i + 1, Push(out, x[i], Same));
    } else {
      assert x[..i] == x;
    }
  }

  lemma SelfPush(x: seq<string>, i: nat, out: seq<DiffPart>)
    requires i < |x| && out == if i == 0 then [] else [DiffPart(Join(x[..i]), Same)]
    ensures Push(out, x[i], Same) == [DiffPart(Join(x[..i + 1]), Same)]
  {
    JoinNext(x, 0, i);
    assert x[0..i] == x[..i] && x[0..i + 1] == x[..i + 1];
    if i == 0 {
      assert x[..0] == [] && "" + x[0] == x[0];
    } else {
      assert out[..0] == [];
    }
  }

  lemma OnePart(text: string, kind: Kind, k: Kind)
    ensures NonSpaceIn([DiffPart(text, kind)], k) == if k == kind then NonSpaceLength(text) else 0
  {
    assert [DiffPart(text, kind)][..0] == [];
  }

  lemma SwapKeepsNothing(a: string, b: string)
    ensures NonSpaceIn([DiffPart(a, Del), DiffPart(b, Add)], Same) == 0
  {
    OnePart(a, Del, Same);
    assert [DiffPart(a, Del), DiffPart(b, Add)][..1] == [DiffPart(a, Del)];
  }

  /** A blank text is at most one token, so it always fits. */
  lemma BlankFits(a: string)
    requires NonSpaceLength(a) == 0
    ensures Fits(a, a)
  {
    var ts := Tokenise(a);
    TokeniseIsUnique(a, ts);
    if |ts| >= 2 {
      if Alternating(ts, false) {
        AllSpaceTokens(ts, 0);
      } else {
        assert Alternating(ts[1..], false);
        AllSpaceTokens(ts, 1);
      }
    }
  }

  /** A word among the tokens shows in the text's non-space length. */
  lemma AllSpaceTokens(ts: seq<string>, k: nat)
    requires k < 2 <= |ts| && Uniform(ts[k], false)
    ensures NonSpaceLength(Join(ts)) > 0
  {
    var rest := Join(ts[1..]);
    NonSpaceLengthConcat(ts[0], rest);
    if k == 0 {
      NonSpacePositive(ts[0]);
    } else {
      NonSpaceLengthConcat(ts[1], Join(ts[1..][1..]));
      NonSpacePositive(ts[1]);
    }
  }

  /** A text against itself is one kept part, and overlap is 1, exactly when it fits the limit. */
  lemma DiffOfEqualTexts(a: string)
    ensures Fits(a, a) ==> Diff(a, a) == if a == "" then [] else [DiffPart(a, Same)]
    ensures Overlap(Diff(a, a)) == 1.0 <==> Fits(a, a)
    ensures !Fits(a, a) ==> Diff(a, a) == [DiffPart(a, Del), DiffPart(a, Add)] && Overlap(Diff(a, a)) == 0.0
  {
    OverlapIsKeptShare(a, a);
    if Fits(a, a) {
      TokeniseIsUnique(a, Tokenise(a));
      SelfWalk(Tokenise(a), 0, []);
      OnePart(a, Same, Same);
    } else {
      if NonSpaceLength(a) == 0 { BlankFits(a); }
      SwapSharesNothing(a);
    }
  }

  /** One-letter words and single spaces in turn, `n` of them. */
  function Comb(n: nat, space: bool): seq<string> {
    if n == 0 then [] else [if space then " " else "a"] + Comb(n - 1, !space)
  }

  lemma {:induction false} CombAlternates(n: nat, space: bool)
    ensures |Comb(n, space)| == n && Alternating(Comb(n, space), space)
  {
    if n > 0 {
      CombAlternates(n - 1, !space);
      assert Comb(n, space)[1..] == Comb(n - 1, !space);
    }
  }

  lemma {:induction false} NonSpacePositive(s: string)
    requires s != "" && !IsSpace(s[0])
    ensures NonSpaceLength(s) > 0
  {
    NonSpaceLengthConcat(s[..1], s[1..]);
    assert s == s[..1] + s[1..] && s[..1][..0] == "";
  }

  /** Within the limit a text is one kept part of itself; past it the whole text is swapped. */
  lemma TextAgainstItself(a: string)
    ensures |Tokenise(a)| <= 200 <==> Overlap(Diff(a, a)) == 1.0
    ensures |Tokenise(a)| <= 200 ==> Diff(a, a) == if a == "" then [] else [DiffPart(a, Same)]
    ensures |Tokenise(a)| > 200 ==> Diff(a, a) == [DiffPart(a, Del), DiffPart(a, Add)] && Overlap(Diff(a, a)) == 0.0
  {
    DiffOfEqualTexts(a);
    var n := |Tokenise(a)|;
    SquareLimit(n);
  }

  lemma SquareLimit(n: nat)
    ensures n * n <= 40_000 <==> n <= 200
  {
    if n <= 200 {
      assert n * n <= 200 * n <= 200 * 200;
    } else {
      assert n * n >= 201 * n >= 201 * 201;
    }
  }

  /** Texts of every number of tokens exist; up to 200 the comb is kept whole, from 201 on it is swapped. */
  lemma LongTextDiffersFromItself(n: nat)
    requires n > 0
    ensures var a := Join(Comb(n, false));
            && |Tokenise(a)| == n
            && (n <= 200 ==> Diff(a, a) == [DiffPart(a, Same)] && Overlap(Diff(a, a)) == 1.0)
            && (n > 200 ==> Diff(a, a) == [DiffPart(a, Del), DiffPart(a, Add)] && Overlap(Diff(a, a)) == 0.0)
  {
    var ts := Comb(n, false);
    var a := Join(ts);
    CombAlternates(n, false);
    TokeniseIsUnique(a, ts);
    FirstTokenIsRun(ts, false);
    TextAgainstItself(a);
  }

  lemma SwapSharesNothing(a: string)
    requires !Fits(a, a) && NonSpaceLength(a) > 0
    ensures Diff(a, a) == [DiffPart(a, Del), DiffPart(a, Add)] && Overlap(Diff(a, a)) == 0.0
  {
    OverlapIsKeptShare(a, a);
    SwapKeepsNothing(a, a);
    ZeroShare(NonSpaceLength(a));
  }

  lemma ZeroShare(m: nat)
    requires m > 0
    ensures 0 as real / m as real == 0.0
  {
  }

  /**
   * Dropping the second of two words keeps all of the new text, yet the overlap is only the first
   * word's share of the old text.
   */
  lemma DroppedWordLowersOverlap(w: string, gap: string, v: string)
    requires Uniform(w, false) && Uniform(gap, true) && Uniform(v, false)
    ensures Diff(w + gap + v, w) == [DiffPart(w, Same), DiffPart(gap + v, Del)]
    ensures NonSpaceIn(Diff(w + gap + v, w), Same) == NonSpaceLength(w)
    ensures Overlap(Diff(w + gap + v, w)) < 1.0
  {
    var a := w + gap + v;
    DroppedWordTokens(w, gap, v);
    DroppedWordWalk(w, gap, v);
    OnePart(w, Same, Same);
    assert [DiffPart(w, Same), DiffPart(gap + v, Del)][..1] == [DiffPart(w, Same)];
    OverlapIsKeptShare(a, w);
    assert NonSpaceLength(a) > NonSpaceLength(w) by {
      NonSpaceLengthConcat(w + gap, v);
      NonSpaceLengthConcat(w, gap);
      NonSpacePositive(v);
    }
  }

  lemma DroppedWordTokens(w: string, gap: string, v: string)
    requires Uniform(w, false) && Uniform(gap, true) && Uniform(v, false)
    ensures Tokenise(w + gap + v) == [w, gap, v] && Tokenise(w) == [w]
  {
    assert [w, gap, v] == [w] + ([gap] + ([v] + [])) && [w] == [w] + [];
    AlternatingCons(v, [], false);
    AlternatingCons(gap, [v] + [], true);
    AlternatingCons(w, [gap] + ([v] + []), false);
    AlternatingCons(w, [], false);
    assert v + Join([]) == v && w + Join([]) == w && w + (gap + v) == w + gap + v;
    TokeniseIsUnique(w + gap + v, [w, gap, v]);
    TokeniseIsUnique(w, [w]);
  }

  lemma DroppedWordWalk(w: string, gap: string, v: string)
    ensures PushAll([], Walk([w, gap, v], [w], 0, 0)) == [DiffPart(w, Same), DiffPart(gap + v, Del)]
  {
    var x, y := [w, gap, v], [w];
    var one := Push([], w, Same);
    var two := Push(one, gap, Del);
    var three := Push(two, v, Del);
    WalkStep(x, y, 0, 0, []);
    WalkStep(x, y, 1, 1, one);
    WalkStep(x, y, 2, 1, two);
    assert three == [DiffPart(w, Same), DiffPart(gap + v, Del)];
  }
}
