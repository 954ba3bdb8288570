/** The word diff of two descriptions and the overlap figure computed from it. */
module WordDiff {
  import opened Seqs
  import opened Text
  import opened Tokens
  import opened EditScript

  datatype Kind = Same | Add | Del

  datatype DiffPart = DiffPart(text: string, kind: Kind)

  const MAX_DIFF_CELLS := 40_000

  function KindOf(e: Edit<string>): Kind {
    match e
    case Keep(_) => Same
    case Delete(_) => Del
    case Insert(_) => Add
  }

  /** Extends the last part when the kind repeats, else starts a new one. */
  function Push(out: seq<DiffPart>, text: string, kind: Kind): seq<DiffPart> {
    if out != [] && out[|out| - 1].kind == kind then
      out[..|out| - 1] + [DiffPart(out[|out| - 1].text + text, kind)]
    else out + [DiffPart(text, kind)]
  }

  function PushAll(out: seq<DiffPart>, script: seq<Edit<string>>): seq<DiffPart>
    decreases |script|
  {
    if script == [] then out
    else PushAll(Push(out, script[0].token, KindOf(script[0])), script[1..])
  }

  predicate Fits(a: string, b: string) {
    |Tokenise(a)| * |Tokenise(b)| <= MAX_DIFF_CELLS
  }

  /** The diff: the walk's script with runs merged, or a whole-text swap past the cell limit. */
  function Diff(a: string, b: string): seq<DiffPart> {
    if Fits(a, b) then PushAll([], Walk(Tokenise(a), Tokenise(b), 0, 0))
    else [DiffPart(a, Del), DiffPart(b, Add)]
  }

  /** Rows `from` and below hold the LCS lengths of the suffixes they stand for. */
  ghost predicate Filled(x: seq<string>, y: seq<string>, lcs: array2<nat>, from: nat)
    requires lcs.Length0 == |x| + 1 && lcs.Length1 == |y| + 1
    reads lcs
  {
    forall p, q :: from <= p <= |x| && 0 <= q <= |y| ==> lcs[p, q] == Lcs(x, y, p, q)
  }

  /** The inner loop: one row from right to left, given the row below. */
  method FillRow(x: seq<string>, y: seq<string>, lcs: array2<nat>, i: nat)
    requires lcs.Length0 == |x| + 1 && lcs.Length1 == |y| + 1
    requires i < |x| && Filled(x, y, lcs, i + 1) && lcs[i, |y|] == 0
    modifies lcs
    ensures Filled(x, y, lcs, i)
    ensures forall p, q :: 0 <= p < i && 0 <= q <= |y| ==> lcs[p, q] == old(lcs[p, q])
  {
    for j := |y| downto 0
      invariant Filled(x, y, lcs, i + 1)
      invariant forall q :: j <= q <= |y| ==> lcs[i, q] == Lcs(x, y, i, q)
      invariant forall p, q :: 0 <= p < i && 0 <= q <= |y| ==> lcs[p, q] == old(lcs[p, q])
    {
      assert lcs[i + 1, j] == Lcs(x, y, i + 1, j) && lcs[i + 1, j + 1] == Lcs(x, y, i + 1, j + 1);
      lcs[i, j] := if x[i] == y[j] then lcs[i + 1, j + 1] + 1 else Max(lcs[i + 1, j], lcs[i, j + 1]);
    }
  }

  /** Bottom-up, in place: `lcs[i, j]` becomes the LCS length of `x[i..]` and `y[j..]`. */
  method FillTable(x: seq<string>, y: seq<string>) returns (lcs: array2<nat>)
    ensures fresh(lcs) && lcs.Length0 == |x| + 1 && lcs.Length1 == |y| + 1
    ensures Filled(x, y, lcs, 0)
  {
    lcs := new nat[|x| + 1, |y| + 1]((_, _) => 0);
    for i := |x| downto 0
      invariant Filled(x, y, lcs, i)
      invariant forall p :: 0 <= p <= i ==> lcs[p, |y|] == 0
    {
      FillRow(x, y, lcs, i);
    }
  }

  /** Walks a filled table from its top left corner, pushing one token at a time. */
  method WalkTable(x: seq<string>, y: seq<string>, lcs: array2<nat>) returns (out: seq<DiffPart>)
    requires lcs.Length0 == |x| + 1 && lcs.Length1 == |y| + 1
    requires Filled(x, y, lcs, 0)
    ensures out == PushAll([], Walk(x, y, 0, 0))
  {
    out := [];
    var i, j := 0, 0;
    while i < |x| || j < |y|
      invariant i <= |x| && j <= |y|
      invariant PushAll(out, Walk(x, y, i, j)) == PushAll([], Walk(x, y, 0, 0))
      decreases |x| - i + |y| - j
    {
      WalkStep(x, y, i, j, out);
      if i < |x| && j < |y| && x[i] == y[j] {
        out := Push(out, x[i], Same);
        i, j := i + 1, j + 1;
      } else if i < |x| && (j == |y| || lcs[i + 1, j] >= lcs[i, j + 1]) {
        out := Push(out, x[i], Del);
        i := i + 1;
      } else {
        out := Push(out, y[j], Add);
        j := j + 1;
      }
    }
  }

  /** The diff itself: a whole-text swap past the cell limit, else the table and its walk. */
  method ComputeDiff(a: string, b: string) returns (out: seq<DiffPart>)
    ensures out == Diff(a, b)
  {
    var x, y := Tokenise(a), Tokenise(b);
    if |x| * |y| > MAX_DIFF_CELLS {
      return [DiffPart(a, Del), DiffPart(b, Add)];
    }
    var lcs := FillTable(x, y);
    out := WalkTable(x, y, lcs);
  }

  lemma PushAllCons(out: seq<DiffPart>, e: Edit<string>, script: seq<Edit<string>>)
    ensures PushAll(out, [e] + script) == PushAll(Push(out, e.token, KindOf(e)), script)
  {
    assert ([e] + script)[1..] == script;
  }

  lemma WalkStep(x: seq<string>, y: seq<string>, i: nat, j: nat, out: seq<DiffPart>)
    requires i <= |x| && j <= |y| && (i < |x| || j < |y|)
    ensures PushAll(out, Walk(x, y, i, j)) ==
            if i < |x| && j < |y| && x[i] == y[j] then
              PushAll(Push(out, x[i], Same), Walk(x, y, i + 1, j + 1))
            else if i < |x| && (j == |y| || Lcs(x, y, i + 1, j) >= Lcs(x, y, i, j + 1)) then
              PushAll(Push(out, x[i], Del), Walk(x, y, i + 1, j))
            else PushAll(Push(out, y[j], Add), Walk(x, y, i, j + 1))
  {
    var w := Walk(x, y, i, j);
    PushAllCons(out, w[0], w[1..]);
  }

  // ---- Round trip ----

  /** The texts of the parts whose kind is not `without`, joined in order. */
  function JoinWithout(parts: seq<DiffPart>, without: Kind): string {
    if parts == [] then ""
    else
      var last := parts[|parts| - 1];
      JoinWithout(parts[..|parts| - 1], without) + if last.kind == without then "" else last.text
  }

  lemma JoinWithoutSnoc(parts: seq<DiffPart>, part: DiffPart, without: Kind)
    ensures JoinWithout(parts + [part], without)
         == JoinWithout(parts, without) + if part.kind == without then "" else part.text
  {
    assert (parts + [part])[..|parts|] == parts;
  }

  lemma PushJoin(out: seq<DiffPart>, text: string, kind: Kind, without: Kind)
    ensures JoinWithout(Push(out, text, kind), without)
         == JoinWithout(out, without) + if kind == without then "" else text
  {
    if out != [] && out[|out| - 1].kind == kind {
      var init, last := out[..|out| - 1], out[|out| - 1];
      JoinWithoutSnoc(init, DiffPart(last.text + text, kind), without);
      Assoc(JoinWithout(init, without), if kind == without then "" else last.text, if kind == without then "" else text);
    } else {
      JoinWithoutSnoc(out, DiffPart(text, kind), without);
    }
  }

  lemma JoinCons(t: string, ts: seq<string>)
    ensures Join([t] + ts) == t + Join(ts)
  {
    assert ([t] + ts)[1..] == ts;
  }

  function JoinScript(script: seq<Edit<string>>, without: Kind): string {
    if script == [] then ""
    else (if KindOf(script[0]) == without then "" else script[0].token) + JoinScript(script[1..], without)
  }

  lemma {:induction false} PushAllJoin(out: seq<DiffPart>, script: seq<Edit<string>>, without: Kind)
    ensures JoinWithout(PushAll(out, script), without) == JoinWithout(out, without) + JoinScript(script, without)
    decreases |script|
  {
    if script != [] {
      var e := script[0];
      PushJoin(out, e.token, KindOf(e), without);
      PushAllJoin(Push(out, e.token, KindOf(e)), script[1..], without);
    }
  }

  lemma JoinDropped(e: Edit<string>, tokens: seq<string>, dropped: bool)
    ensures Join((if dropped then [] else [e.token]) + tokens) == (if dropped then "" else e.token) + Join(tokens)
  {
    if dropped { assert [] + tokens == tokens; } else { JoinCons(e.token, tokens); }
  }

  lemma {:induction false} JoinScriptSource(script: seq<Edit<string>>)
    ensures JoinScript(script, Add) == Join(Source(script))
  {
    if script != [] {
      JoinScriptSource(script[1..]);
      JoinDropped(script[0], Source(script[1..]), script[0].Insert?);
    }
  }

  lemma {:induction false} JoinScriptTarget(script: seq<Edit<string>>)
    ensures JoinScript(script, Del) == Join(Target(script))
  {
    if script != [] {
      JoinScriptTarget(script[1..]);
      JoinDropped(script[0], Target(script[1..]), script[0].Delete?);
    }
  }

  lemma SwapJoin(a: string, b: string, without: Kind)
    requires without != Same
    ensures JoinWithout([DiffPart(a, Del), DiffPart(b, Add)], without) == if without == Add then a else b
  {
    var d := [DiffPart(a, Del), DiffPart(b, Add)];
    PushJoin([], a, Del, without);
    PushJoin([DiffPart(a, Del)], b, Add, without);
    assert Push([], a, Del) == [DiffPart(a, Del)];
    assert Push([DiffPart(a, Del)], b, Add) == d;
  }

  /** Dropping the additions gives back the old text, dropping the deletions the new one. */
  lemma DiffRoundTrip(a: string, b: string)
    ensures JoinWithout(Diff(a, b), Add) == a
    ensures JoinWithout(Diff(a, b), Del) == b
  {
    if Fits(a, b) {
      var x, y := Tokenise(a), Tokenise(b);
      WalkKeepsLcs(x, y, 0, 0);
      PushAllJoin([], Walk(x, y, 0, 0), Add);
      PushAllJoin([], Walk(x, y, 0, 0), Del);
      JoinScriptSource(Walk(x, y, 0, 0));
      JoinScriptTarget(Walk(x, y, 0, 0));
      TokeniseIsUnique(a, x);
      TokeniseIsUnique(b, y);
    } else {
      SwapJoin(a, b, Add);
      SwapJoin(a, b, Del);
    }
  }

  // ---- Shape: runs are merged and deletions come first ----

  /** Neighbouring parts differ in kind, and an addition is followed by kept text only. */
  predicate MayFollow(a: Kind, b: Kind) {
    a != b && (a == Add ==> b == Same)
  }

  ghost predicate DeletionsFirst(parts: seq<DiffPart>) {
    forall k, l :: 0 <= k && l == k + 1 < |parts| ==> MayFollow(parts[k].kind, parts[l].kind)
  }

  lemma PushDeletesFirst(out: seq<DiffPart>, text: string, kind: Kind)
    requires DeletionsFirst(out) && !(out != [] && out[|out| - 1].kind == Add && kind == Del)
    ensures DeletionsFirst(Push(out, text, kind))
    ensures Push(out, text, kind)[|Push(out, text, kind)| - 1].kind == kind
  {
  }

  lemma {:induction false} WalkDeletesFirst(x: seq<string>, y: seq<string>, i: nat, j: nat, out: seq<DiffPart>)
    requires i <= |x| && j <= |y| && DeletionsFirst(out)
    requires out != [] && out[|out| - 1].kind == Add ==> AfterInsert(x, y, i, j)
    ensures DeletionsFirst(PushAll(out, Walk(x, y, i, j)))
    decreases |x| - i + |y| - j
  {
    var w := Walk(x, y, i, j);
    if w != [] {
      InsertLeavesNoDelete(x, y, i, j);
      var next := Push(out, w[0].token, KindOf(w[0]));
      PushDeletesFirst(out, w[0].token, KindOf(w[0]));
      if w[0].Keep? {
        WalkDeletesFirst(x, y, i + 1, j + 1, next);
      } else if w[0].Delete? {
        WalkDeletesFirst(x, y, i + 1, j, next);
      } else {
        WalkDeletesFirst(x, y, i, j + 1, next);
      }
    }
  }

  ghost predicate NothingKept(parts: seq<DiffPart>, p: nat, q: nat) {
    p <= q <= |parts| && forall k :: p <= k < q ==> parts[k].kind != Same
  }

  lemma AtMostOneSwap(parts: seq<DiffPart>, p: nat, q: nat)
    requires DeletionsFirst(parts) && NothingKept(parts, p, q)
    ensures q - p <= 2
    ensures q - p == 2 ==> parts[p].kind == Del && parts[p + 1].kind == Add
  {
    if q - p >= 2 {
      assert MayFollow(parts[p].kind, parts[p + 1].kind);
      assert parts[p].kind != Same && parts[p + 1].kind != Same;
      if p + 2 < |parts| { assert MayFollow(parts[p + 1].kind, parts[p + 2].kind); }
    }
  }

  /** Between two kept parts there is at most one deletion, then at most one addition. */
  lemma DiffDeletesFirst(a: string, b: string, p: nat, q: nat)
    ensures DeletionsFirst(Diff(a, b))
    ensures NothingKept(Diff(a, b), p, q) ==>
              q - p <= 2 && (q - p == 2 ==> Diff(a, b)[p].kind == Del && Diff(a, b)[p + 1].kind == Add)
  {
    if Fits(a, b) { WalkDeletesFirst(Tokenise(a), Tokenise(b), 0, 0, []); }
    if NothingKept(Diff(a, b), p, q) { AtMostOneSwap(Diff(a, b), p, q); }
  }
}
