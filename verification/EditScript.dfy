/**
 * Insert/delete scripts between two token lists, the longest-common-subsequence length the diff
 * tabulates, and the script its greedy walk spells out.
 */
module EditScript {

  datatype Edit<T> = Keep(token: T) | Delete(token: T) | Insert(token: T)

  function Source<T>(script: seq<Edit<T>>): seq<T> {
    if script == [] then []
    else (if script[0].Insert? then [] else [script[0].token]) + Source(script[1..])
  }

  function Target<T>(script: seq<Edit<T>>): seq<T> {
    if script == [] then []
    else (if script[0].Delete? then [] else [script[0].token]) + Target(script[1..])
  }

  function Kept<T>(script: seq<Edit<T>>): nat {
    if script == [] then 0 else Kept(script[1..]) + if script[0].Keep? then 1 else 0
  }

  function Cost<T>(script: seq<Edit<T>>): nat {
    if script == [] then 0 else Cost(script[1..]) + if script[0].Keep? then 0 else 1
  }

  function Max(a: nat, b: nat): nat {
    if a < b then b else a
  }

  /** The recurrence of the table: a match is always taken, otherwise the better neighbour. */
  function Lcs<T(==)>(x: seq<T>, y: seq<T>, i: nat, j: nat): nat
    requires i <= |x| && j <= |y|
    decreases |x| - i + |y| - j
  {
    if i == |x| || j == |y| then 0
    else if x[i] == y[j] then Lcs(x, y, i + 1, j + 1) + 1
    else Max(Lcs(x, y, i + 1, j), Lcs(x, y, i, j + 1))
  }

  /** The greedy walk over the table from position `(i, j)`; deletions win ties. */
  function Walk<T(==)>(x: seq<T>, y: seq<T>, i: nat, j: nat): seq<Edit<T>>
    requires i <= |x| && j <= |y|
    decreases |x| - i + |y| - j
  {
    if i == |x| && j == |y| then []
    else if i < |x| && j < |y| && x[i] == y[j] then [Keep(x[i])] + Walk(x, y, i + 1, j + 1)
    else if i < |x| && (j == |y| || Lcs(x, y, i + 1, j) >= Lcs(x, y, i, j + 1)) then
      [Delete(x[i])] + Walk(x, y, i + 1, j)
    else [Insert(y[j])] + Walk(x, y, i, j + 1)
  }

  /** The table is monotone and moves by at most one between neighbours. */
  lemma {:induction false} LcsSteps<T>(x: seq<T>, y: seq<T>, i: nat, j: nat)
    requires i <= |x| && j <= |y|
    ensures i < |x| ==> Lcs(x, y, i + 1, j) <= Lcs(x, y, i, j) <= Lcs(x, y, i + 1, j) + 1
    ensures j < |y| ==> Lcs(x, y, i, j + 1) <= Lcs(x, y, i, j) <= Lcs(x, y, i, j + 1) + 1
    decreases |x| - i + |y| - j
  {
    if i < |x| && j < |y| {
      LcsSteps(x, y, i + 1, j);
      LcsSteps(x, y, i, j + 1);
    }
  }

  ghost predicate NoneShared<T>(x: seq<T>, y: seq<T>, i: nat, j: nat) {
    forall p, q :: i <= p < |x| && j <= q < |y| ==> x[p] != y[q]
  }

  /** The table is zero exactly where the two suffixes share no token. */
  lemma {:induction false} LcsZero<T>(x: seq<T>, y: seq<T>, i: nat, j: nat)
    requires i <= |x| && j <= |y|
    ensures Lcs(x, y, i, j) == 0 <==> NoneShared(x, y, i, j)
    decreases |x| - i + |y| - j
  {
    if i < |x| && j < |y| && x[i] != y[j] {
      LcsZero(x, y, i + 1, j);
      LcsZero(x, y, i, j + 1);
    }
  }

  lemma NoneSharedMembers<T>(x: seq<T>, y: seq<T>)
    ensures NoneShared(x, y, 0, 0) <==> forall t :: t in x ==> t !in y
  {
    if t :| t in x && t in y {
      var p :| 0 <= p < |x| && x[p] == t;
      var q :| 0 <= q < |y| && y[q] == t;
      assert x[p] == y[q];
    }
    if !NoneShared(x, y, 0, 0) {
      var p, q :| 0 <= p < |x| && 0 <= q < |y| && x[p] == y[q];
      assert x[p] in x && x[p] in y;
    }
  }

  /** No script between the two suffixes keeps more tokens than the table says. */
  lemma {:induction false} KeptAtMostLcs<T>(x: seq<T>, y: seq<T>, i: nat, j: nat, script: seq<Edit<T>>)
    requires i <= |x| && j <= |y|
    requires Source(script) == x[i..] && Target(script) == y[j..]
    ensures Kept(script) <= Lcs(x, y, i, j)
    decreases |script|
  {
    if script != [] {
      var rest := script[1..];
      LcsSteps(x, y, i, j);
      if script[0].Keep? {
        assert Source(rest) == x[i..][1..] == x[i + 1..] && Target(rest) == y[j..][1..] == y[j + 1..];
        assert x[i] == Source(script)[0] == Target(script)[0] == y[j];
        KeptAtMostLcs(x, y, i + 1, j + 1, rest);
      } else if script[0].Delete? {
        assert Source(rest) == x[i..][1..] == x[i + 1..];
        KeptAtMostLcs(x, y, i + 1, j, rest);
      } else {
        assert Target(rest) == y[j..][1..] == y[j + 1..];
        KeptAtMostLcs(x, y, i, j + 1, rest);
      }
    }
  }

  lemma Cons<T>(e: Edit<T>, s: seq<Edit<T>>)
    ensures Source([e] + s) == (if e.Insert? then [] else [e.token]) + Source(s)
    ensures Target([e] + s) == (if e.Delete? then [] else [e.token]) + Target(s)
    ensures Kept([e] + s) == Kept(s) + if e.Keep? then 1 else 0
  {
    assert ([e] + s)[1..] == s;
  }

  lemma DropOne<T>(s: seq<T>, i: nat)
    requires i < |s|
    ensures s[i..] == [s[i]] + s[i + 1..]
  {
  }

  /** The walk is a script between the two suffixes, and it keeps as many tokens as the table says. */
  lemma {:induction false} WalkKeepsLcs<T>(x: seq<T>, y: seq<T>, i: nat, j: nat)
    requires i <= |x| && j <= |y|
    ensures Source(Walk(x, y, i, j)) == x[i..] && Target(Walk(x, y, i, j)) == y[j..]
    ensures Kept(Walk(x, y, i, j)) == Lcs(x, y, i, j)
    decreases |x| - i + |y| - j
  {
    if i == |x| && j == |y| {
    } else if i < |x| && j < |y| && x[i] == y[j] {
      WalkKeepsLcs(x, y, i + 1, j + 1);
      Cons(Keep(x[i]), Walk(x, y, i + 1, j + 1));
      DropOne(x, i);
      DropOne(y, j);
    } else if i < |x| && (j == |y| || Lcs(x, y, i + 1, j) >= Lcs(x, y, i, j + 1)) {
      WalkKeepsLcs(x, y, i + 1, j);
      Cons(Delete(x[i]), Walk(x, y, i + 1, j));
      DropOne(x, i);
    } else {
      WalkKeepsLcs(x, y, i, j + 1);
      Cons(Insert(y[j]), Walk(x, y, i, j + 1));
      DropOne(y, j);
    }
  }

  lemma {:induction false} CostByKept<T>(script: seq<Edit<T>>)
    ensures Cost(script) + 2 * Kept(script) == |Source(script)| + |Target(script)|
  {
    if script != [] { CostByKept(script[1..]); }
  }

  /** The walk is a shortest insert/delete script from `x` to `y`. */
  lemma WalkIsShortest<T>(x: seq<T>, y: seq<T>, script: seq<Edit<T>>)
    requires Source(script) == x && Target(script) == y
    ensures Cost(Walk(x, y, 0, 0)) <= Cost(script)
    ensures Kept(script) <= Kept(Walk(x, y, 0, 0))
  {
    WalkKeepsLcs(x, y, 0, 0);
    KeptAtMostLcs(x, y, 0, 0, script);
    CostByKept(script);
    CostByKept(Walk(x, y, 0, 0));
  }

  /** After an insertion the table still promises strictly more without deleting than with it. */
  ghost predicate AfterInsert<T>(x: seq<T>, y: seq<T>, i: nat, j: nat)
    requires i <= |x| && j <= |y|
  {
    i < |x| ==> Lcs(x, y, i, j) > Lcs(x, y, i + 1, j)
  }

  /** Deletions first: every insertion establishes `AfterInsert`, and under it the walk never deletes. */
  lemma InsertLeavesNoDelete<T>(x: seq<T>, y: seq<T>, i: nat, j: nat)
    requires i <= |x| && j <= |y| && Walk(x, y, i, j) != []
    ensures Walk(x, y, i, j)[0].Insert? ==> j < |y| && AfterInsert(x, y, i, j + 1)
    ensures AfterInsert(x, y, i, j) ==> !Walk(x, y, i, j)[0].Delete?
  {
    if i < |x| && j < |y| { LcsSteps(x, y, i + 1, j); }
  }

  // ---- Which of the shortest scripts ----

  /** Keeping comes before deleting, deleting before inserting. */
  function Turn<T>(e: Edit<T>): nat {
    match e
    case Keep(_) => 0
    case Delete(_) => 1
    case Insert(_) => 2
  }

  /** At the first place where they differ, `s` has the earlier turn. */
  ghost predicate Sooner<T>(s: seq<Edit<T>>, t: seq<Edit<T>>)
    decreases |s|
  {
    s != [] && t != [] && (Turn(s[0]) < Turn(t[0]) || (s[0] == t[0] && Sooner(s[1..], t[1..])))
  }

  lemma SoonerCons<T>(e: Edit<T>, s: seq<Edit<T>>, t: seq<Edit<T>>)
    requires t != [] && t[0] == e && (t[1..] == s || Sooner(s, t[1..]))
    ensures t == [e] + s || Sooner([e] + s, t)
  {
    assert ([e] + s)[1..] == s && t == [t[0]] + t[1..];
  }

  /** What a script that keeps as many tokens as the table says may start with. */
  lemma FirstEdit<T>(x: seq<T>, y: seq<T>, i: nat, j: nat, script: seq<Edit<T>>)
    requires i <= |x| && j <= |y| && (i < |x| || j < |y|)
    requires Source(script) == x[i..] && Target(script) == y[j..] && Kept(script) == Lcs(x, y, i, j)
    ensures script != []
    ensures script[0].Keep? ==>
              && i < |x| && j < |y| && x[i] == y[j] && script[0].token == x[i]
              && Source(script[1..]) == x[i + 1..] && Target(script[1..]) == y[j + 1..]
    ensures script[0].Delete? ==>
              && i < |x| && script[0].token == x[i] && Lcs(x, y, i + 1, j) >= Kept(script)
              && Source(script[1..]) == x[i + 1..] && Target(script[1..]) == y[j..]
    ensures script[0].Insert? ==>
              && j < |y| && script[0].token == y[j] && Lcs(x, y, i, j + 1) >= Kept(script)
              && Source(script[1..]) == x[i..] && Target(script[1..]) == y[j + 1..]
  {
    if i < |x| { DropOne(x, i); }
    if j < |y| { DropOne(y, j); }
    var rest := script[1..];
    if script[0].Keep? {
      assert x[i..][1..] == x[i + 1..] && y[j..][1..] == y[j + 1..];
    } else if script[0].Delete? {
      assert x[i..][1..] == x[i + 1..];
      KeptAtMostLcs(x, y, i + 1, j, rest);
    } else {
      assert y[j..][1..] == y[j + 1..];
      KeptAtMostLcs(x, y, i, j + 1, rest);
    }
  }

  /** Every other script that keeps as many tokens comes later than the walk. */
  lemma {:induction false} WalkComesFirst<T>(x: seq<T>, y: seq<T>, i: nat, j: nat, script: seq<Edit<T>>)
    requires i <= |x| && j <= |y|
    requires Source(script) == x[i..] && Target(script) == y[j..] && Kept(script) == Lcs(x, y, i, j)
    ensures script == Walk(x, y, i, j) || Sooner(Walk(x, y, i, j), script)
    decreases |x| - i + |y| - j
  {
    if i == |x| && j == |y| {
      NoEdits(script);
    } else {
      FirstEdit(x, y, i, j, script);
      if i < |x| { LcsSteps(x, y, i, j); }
      var w, rest := Walk(x, y, i, j), script[1..];
      if script[0] == w[0] {
        if w[0].Keep? {
          WalkComesFirst(x, y, i + 1, j + 1, rest);
          SoonerCons(w[0], Walk(x, y, i + 1, j + 1), script);
        } else if w[0].Delete? {
          WalkComesFirst(x, y, i + 1, j, rest);
          SoonerCons(w[0], Walk(x, y, i + 1, j), script);
        } else {
          WalkComesFirst(x, y, i, j + 1, rest);
          SoonerCons(w[0], Walk(x, y, i, j + 1), script);
        }
      }
    }
  }

  lemma NoEdits<T>(script: seq<Edit<T>>)
    requires Source(script) == [] && Target(script) == []
    ensures script == []
  {
  }

  /** Of all shortest scripts from `x` to `y`, the walk is the first. */
  lemma WalkIsFirstShortest<T>(x: seq<T>, y: seq<T>, script: seq<Edit<T>>)
    requires Source(script) == x && Target(script) == y && Cost(script) <= Cost(Walk(x, y, 0, 0))
    ensures script == Walk(x, y, 0, 0) || Sooner(Walk(x, y, 0, 0), script)
  {
    WalkKeepsLcs(x, y, 0, 0);
    WalkIsShortest(x, y, script);
    CostByKept(script);
    CostByKept(Walk(x, y, 0, 0));
    WalkComesFirst(x, y, 0, 0, script);
  }
}
