/** Finding the one customer a text names, by whole-word search for names and aliases. */
module AliasSearch {
  import opened Options
  import opened Text

  /** How characters are classed and lowered; any classification will do. */
  datatype Script = Script(space: char -> bool, alnum: char -> bool, lower: string -> string)

  datatype Customer = Customer(name: string, aliases: seq<string>)

  /** `hay.find(needle, start)`, with None for -1. */
  function Find(hay: string, needle: string, start: nat): (at: Option<nat>)
    ensures at.Some? ==> start <= at.value <= |hay| && OccursAt(hay, needle, at.value)
    ensures forall i :: start <= i && (at.Some? ==> i < at.value) ==> !OccursAt(hay, needle, i)
    decreases |hay| - start
  {
    if start > |hay| then None
    else if OccursAt(hay, needle, start) then Some(start)
    else Find(hay, needle, start + 1)
  }

  /** An occurrence with the text's edge or a non-alphanumeric character on both sides. */
  ghost predicate WholeWordAt(alnum: char -> bool, hay: string, needle: string, i: nat) {
    && OccursAt(hay, needle, i)
    && (i == 0 || !alnum(hay[i - 1]))
    && (i + |needle| == |hay| || !alnum(hay[i + |needle|]))
  }

  /** The alias names something, and some occurrence of it, overlapping ones included, is a whole word. */
  ghost predicate Hits(script: Script, haystack: string, alias: string) {
    exists needle, i ::
      && IsCut(alias, needle, script.space) && needle != ""
      && WholeWordAt(script.alnum, script.lower(haystack), script.lower(needle), i)
  }

  lemma HitsCut(script: Script, haystack: string, alias: string)
    ensures Hits(script, haystack, alias) <==>
            var needle := Strip(alias, script.space);
            needle != "" && exists i :: WholeWordAt(script.alnum, script.lower(haystack), script.lower(needle), i)
  {
    forall needle { StripIsCut(alias, needle, script.space); }
  }

  method AliasMatches(script: Script, haystack: string, alias: string) returns (hit: bool)
    ensures hit <==> Hits(script, haystack, alias)
  {
    var stripped := Strip(alias, script.space);
    HitsCut(script, haystack, alias);
    if stripped == "" { return false; }
    var hay, needle := script.lower(haystack), script.lower(stripped);
    if |needle| > |hay| { return false; }
    var start := 0;
    while true
      invariant start <= |hay| + 1
      invariant forall i :: 0 <= i < start ==> !WholeWordAt(script.alnum, hay, needle, i)
      decreases |hay| + 1 - start
    {
      var found := Find(hay, needle, start);
      if found.None? { return false; }
      var idx := found.value;
      var beforeOk := idx == 0 || !script.alnum(hay[idx - 1]);
      var after := idx + |needle|;
      var afterOk := after == |hay| || !script.alnum(hay[after]);
      if beforeOk && afterOk {
        assert WholeWordAt(script.alnum, hay, needle, idx);
        return true;
      }
      start := idx + 1;
    }
  }

  // ---- Exactly one customer ----

  ghost predicate CustomerHits(script: Script, text: string, c: Customer) {
    Hits(script, text, c.name) || exists i :: 0 <= i < |c.aliases| && Hits(script, text, c.aliases[i])
  }

  ghost function HitNames(script: Script, text: string, customers: seq<Customer>): set<string> {
    set c | c in customers && CustomerHits(script, text, c) :: c.name
  }

  method CustomerMatches(script: Script, text: string, c: Customer) returns (hit: bool)
    ensures hit <==> CustomerHits(script, text, c)
  {
    hit := AliasMatches(script, text, c.name);
    for i := 0 to |c.aliases|
      invariant hit <==> Hits(script, text, c.name) || exists j :: 0 <= j < i && Hits(script, text, c.aliases[j])
    {
      if !hit { hit := AliasMatches(script, text, c.aliases[i]); }
    }
  }

  /** A name is returned exactly when one distinct customer hits, and it is that one. */
  method CustomerInText(script: Script, text: string, customers: seq<Customer>) returns (name: Option<string>)
    ensures name.Some? <==> |HitNames(script, text, customers)| == 1
    ensures name.Some? ==> HitNames(script, text, customers) == {name.value}
  {
    var hits: seq<string> := [];
    for n := 0 to |customers|
      invariant forall x :: x in hits <==> x in HitNames(script, text, customers[..n])
      invariant forall i, j :: 0 <= i < j < |hits| ==> hits[i] != hits[j]
    {
      var hit := CustomerMatches(script, text, customers[n]);
      HitNamesSnoc(script, text, customers, n);
      if hit && customers[n].name !in hits {
        hits := hits + [customers[n].name];
      }
    }
    assert customers[..|customers|] == customers;
    ghost var names := HitNames(script, text, customers);
    DistinctCount(hits, names);
    if |hits| == 1 {
      assert names == {hits[0]};
      return Some(hits[0]);
    }
    return None;
  }

  lemma HitNamesSnoc(script: Script, text: string, customers: seq<Customer>, n: nat)
    requires n < |customers|
    ensures HitNames(script, text, customers[..n + 1])
         == HitNames(script, text, customers[..n])
            + if CustomerHits(script, text, customers[n]) then {customers[n].name} else {}
  {
    assert customers[..n + 1] == customers[..n] + [customers[n]];
  }

  lemma {:induction false} DistinctCount(hits: seq<string>, names: set<string>)
    requires forall x :: x in hits <==> x in names
    requires forall i, j :: 0 <= i < j < |hits| ==> hits[i] != hits[j]
    ensures |names| == |hits|
  {
    if hits == [] {
      assert names == {};
    } else {
      var n := |hits| - 1;
      assert hits == hits[..n] + [hits[n]];
      DistinctCount(hits[..n], names - {hits[n]});
    }
  }

  /** The order and repetition of customer rows do not matter. */
  lemma RowsOrderIrrelevant(script: Script, text: string, rows: seq<Customer>, others: seq<Customer>)
    requires forall c :: c in rows <==> c in others
    ensures HitNames(script, text, rows) == HitNames(script, text, others)
  {
  }

  /** Why the search resumes one past a failed hit: a whole word may overlap an earlier occurrence. */
  lemma OverlappingHit(alnum: char -> bool, needle: string, unit: string)
    requires |unit| > 0 && needle == unit + "-" + unit
    requires forall k :: 0 <= k < |unit| ==> alnum(unit[k])
    requires !alnum('-')
    ensures var hay := unit + unit + "-" + unit + "-" + unit;
            && OccursAt(hay, needle, |unit|) && !WholeWordAt(alnum, hay, needle, |unit|)
            && forall i :: WholeWordAt(alnum, hay, needle, i) <==> i == 2 * |unit| + 1
  {
    var hay := unit + unit + "-" + unit + "-" + unit;
    var n := |unit|;
    assert hay[n..n + |needle|] == needle;
    assert hay[n - 1] == unit[n - 1];
    assert hay[2 * n + 1..2 * n + 1 + |needle|] == needle;
    assert hay[2 * n] == '-';
  }
}
