/** The columns of the ticket board and which one a ticket belongs to. */
module Board {

  import opened Options
  import opened Seqs
  import opened Text

  datatype Column = ToDo | Blocked | InProgress | Verification | Done

  /** Jira's own three categories. */
  datatype Category = New | Indeterminate | Finished

  /** A ticket's status as last acknowledged; the name in lower case, the only form it is matched in. */
  datatype Status = Status(name: Option<string>, category: Option<Category>)

  datatype Transition = Transition(id: string, toStatus: string, toCategory: Option<Category>)

  predicate Includes(s: string, word: string) {
    |word| <= |s| && (s[..|word|] == word || Includes(s[1..], word))
  }

  /** Two columns go by a word in the status name, the other three by category. */
  function ColumnOf(s: Status): Column {
    var name := if s.name.Some? then s.name.value else "";
    if Includes(name, "block") then Blocked
    else if Includes(name, "verif") then Verification
    else match s.category
      case None => ToDo
      case Some(New) => ToDo
      case Some(Indeterminate) => InProgress
      case Some(Finished) => Done
  }

  /** The ways into a column. */
  function MovesInto(ts: seq<Transition>, column: Column): seq<Transition> {
    if ts == [] then []
    else
      var t := ts[|ts| - 1];
      MovesInto(ts[..|ts| - 1], column)
      + if t.toCategory.Some? && ColumnOf(Status(Some(t.toStatus), t.toCategory)) == column then [t] else []
  }

  // ---- What leads where ----

  ghost predicate HasWord(s: string, word: string) {
    exists i :: OccursAt(s, word, i)
  }

  lemma {:induction false} IncludesIsSubstring(s: string, word: string)
    ensures Includes(s, word) <==> HasWord(s, word)
  {
    if |word| <= |s| {
      assert s[0..0 + |word|] == s[..|word|];
      if s[..|word|] == word {
        assert OccursAt(s, word, 0);
      } else {
        IncludesIsSubstring(s[1..], word);
        forall i: nat ensures OccursAt(s[1..], word, i) <==> OccursAt(s, word, i + 1) { OccursShift(s, word, i); }
        if i: nat :| OccursAt(s, word, i) { assert i > 0 && OccursAt(s[1..], word, i - 1); }
      }
    }
  }

  lemma OccursShift(s: string, word: string, i: nat)
    requires s != ""
    ensures OccursAt(s[1..], word, i) <==> OccursAt(s, word, i + 1)
  {
    if i + 1 + |word| <= |s| { assert s[1..][i..i + |word|] == s[i + 1..i + 1 + |word|]; }
  }

  /** Which statuses stand in which column. */
  lemma ColumnsByName(s: Status)
    ensures var name := if s.name.Some? then s.name.value else "";
            var blocked, verif := HasWord(name, "block"), HasWord(name, "verif");
            && (ColumnOf(s) == Blocked <==> blocked)
            && (ColumnOf(s) == Verification <==> !blocked && verif)
            && (ColumnOf(s) == InProgress <==> !blocked && !verif && s.category == Some(Indeterminate))
            && (ColumnOf(s) == Done <==> !blocked && !verif && s.category == Some(Finished))
            && (ColumnOf(s) == ToDo <==> !blocked && !verif && (s.category == Some(New) || s.category == None))
  {
    var name := if s.name.Some? then s.name.value else "";
    IncludesIsSubstring(name, "block");
    IncludesIsSubstring(name, "verif");
  }

  /** A transition with a category, whose status stands in the column. */
  predicate LeadsInto(t: Transition, column: Column) {
    t.toCategory.Some? && ColumnOf(Status(Some(t.toStatus), t.toCategory)) == column
  }

  /** The ways into a column are the transitions leading there, in the order offered. */
  lemma {:induction false} WaysIn(ts: seq<Transition>, column: Column) returns (at: seq<nat>)
    ensures Picks(ts, at, MovesInto(ts, column))
    ensures forall i: nat :: i < |ts| ==> (LeadsInto(ts[i], column) <==> i in at)
  {
    at := [];
    if ts != [] {
      var n := |ts| - 1;
      at := WaysIn(ts[..n], column);
      PicksSnoc(ts[..n], at, MovesInto(ts[..n], column), ts[n]);
      FullPrefix(ts);
      PrefixSnoc(ts, n);
      assert forall i: nat :: i < n ==> ts[..n][i] == ts[i];
      if LeadsInto(ts[n], column) { at := at + [n]; }
    }
  }
}
