/** The list of page sections that failed to load, kept in declaration order as promises reject. */
module SectionLoader {
  import opened Seqs
  import opened Sorting

  datatype Event = Declare(name: string) | Rejects(name: string)

  /** First place of a name in a list, or -1: `indexOf`. */
  function IndexOf(names: seq<string>, name: string): (i: int)
    ensures name !in names <==> i == -1
    ensures i != -1 ==> 0 <= i < |names| && names[i] == name && name !in names[..i]
  {
    if names == [] then -1
    else if names[0] == name then 0
    else
      var rest := IndexOf(names[1..], name);
      assert rest >= 0 ==> names[..rest + 1] == [names[0]] + names[1..][..rest];
      if rest < 0 then -1 else rest + 1
  }

  function ByDeclaration(declared: seq<string>): string -> Rank {
    (name: string) => Rank(IndexOf(declared, name), 0)
  }

  datatype Loader = Loader(declared: seq<string>, failed: seq<string>)

  function After(l: Loader, e: Event): Loader {
    match e
    case Declare(name) => l.(declared := l.declared + [name])
    case Rejects(name) => l.(failed := SortBy(l.failed + [name], ByDeclaration(l.declared)))
  }

  function Run(events: seq<Event>): Loader {
    if events == [] then Loader([], []) else After(Run(events[..|events| - 1]), events[|events| - 1])
  }

  /** The names that have rejected so far, in the order they did. */
  function Log(events: seq<Event>): seq<string> {
    if events == [] then []
    else
      var last := events[|events| - 1];
      Log(events[..|events| - 1]) + if last.Rejects? then [last.name] else []
  }

  /** A promise rejects only after its section was declared. */
  ghost predicate Declared(events: seq<Event>) {
    events == [] ||
      (Declared(events[..|events| - 1])
       && (events[|events| - 1].Rejects? ==> events[|events| - 1].name in Run(events[..|events| - 1]).declared))
  }

  lemma {:induction false} IndexOfAppend(declared: seq<string>, more: string, name: string)
    requires name in declared
    ensures IndexOf(declared + [more], name) == IndexOf(declared, name)
  {
    if declared[0] != name {
      assert declared == [declared[0]] + declared[1..];
      assert (declared + [more])[1..] == declared[1..] + [more];
      IndexOfAppend(declared[1..], more, name);
    }
  }

  lemma IdentifiedByDeclaration(declared: seq<string>, names: seq<string>)
    requires forall x :: x in names ==> x in declared
    ensures RankIdentifies(names, ByDeclaration(declared))
  {
    forall x, y ensures SamePlace(names, ByDeclaration(declared), x, y) {
    }
  }

  lemma {:induction false} LogFacts(events: seq<Event>)
    requires Declared(events)
    ensures forall x :: x in Log(events) ==> x in Run(events).declared
    ensures Run(events).failed == SortBy(Log(events), ByDeclaration(Run(events).declared))
  {
    if events != [] {
      var init, last := events[..|events| - 1], events[|events| - 1];
      LogFacts(init);
      var before := Run(init);
      match last {
        case Declare(name) =>
          assert Log(events) == Log(init) + [] == Log(init);
          forall x | x in Log(init)
            ensures ByDeclaration(before.declared)(x) == ByDeclaration(before.declared + [name])(x)
          {
            IndexOfAppend(before.declared, name, x);
          }
          SortCongruence(Log(init), ByDeclaration(before.declared), ByDeclaration(before.declared + [name]));
        case Rejects(name) =>
          SortBySorts(Log(init), ByDeclaration(before.declared));
          IdentifiedByDeclaration(before.declared, Log(init) + [name]);
          SortForgetsOrder(Log(init) + [name], before.failed + [name], ByDeclaration(before.declared));
      }
    }
  }

  /**
   * Two loads that declare the same sections and see the same failures end with the same list, in
   * whatever order the promises settled and whether or not names repeat.
   */
  lemma FailuresIgnoreSettleOrder(events: seq<Event>, others: seq<Event>)
    requires Declared(events) && Declared(others)
    requires Run(events).declared == Run(others).declared
    ensures Run(events).failed == Run(others).failed <==> multiset(Log(events)) == multiset(Log(others))
  {
    LogFacts(events);
    LogFacts(others);
    SortBySorts(Log(events), ByDeclaration(Run(events).declared));
    SortBySorts(Log(others), ByDeclaration(Run(others).declared));
    if multiset(Log(events)) == multiset(Log(others)) {
      IdentifiedByDeclaration(Run(events).declared, Log(events));
      SortForgetsOrder(Log(events), Log(others), ByDeclaration(Run(events).declared));
    }
  }

  /** The declared names found in `failed`, in declaration order. */
  function FailedOf(declared: seq<string>, failed: seq<string>): seq<string> {
    if declared == [] then []
    else
      FailedOf(declared[..|declared| - 1], failed)
      + if declared[|declared| - 1] in failed then [declared[|declared| - 1]] else []
  }

  lemma {:induction false} FailedOfMembers(declared: seq<string>, failed: seq<string>, x: string)
    ensures x in FailedOf(declared, failed) <==> x in declared && x in failed
  {
    if declared != [] {
      FailedOfMembers(declared[..|declared| - 1], failed, x);
      assert declared == declared[..|declared| - 1] + [declared[|declared| - 1]];
    }
  }

  lemma {:induction false} FailedOfShape(declared: seq<string>, failed: seq<string>)
    requires Distinct(declared)
    ensures Distinct(FailedOf(declared, failed)) && SortedBy(FailedOf(declared, failed), ByDeclaration(declared))
  {
    if declared != [] {
      var n := |declared| - 1;
      var init, last := declared[..n], declared[n];
      FailedOfShape(init, failed);
      assert declared == init + [last];
      var kept := FailedOf(init, failed);
      forall x | x in kept
        ensures x != last && IndexOf(declared, x) == IndexOf(init, x) < n == IndexOf(declared, last)
      {
        FailedOfMembers(init, failed, x);
        IndexOfAppend(init, last, x);
        assert declared[IndexOf(declared, last)] == last;
      }
      forall i, j | 0 <= i < j < |kept|
        ensures Leq(ByDeclaration(declared)(kept[i]), ByDeclaration(declared)(kept[j]))
      {
        assert kept[i] in kept && kept[j] in kept;
        assert Leq(ByDeclaration(init)(kept[i]), ByDeclaration(init)(kept[j]));
      }
    }
  }

  lemma DistinctMultiset(s: seq<string>, t: seq<string>)
    requires Distinct(s) && Distinct(t) && forall x :: x in s <==> x in t
    ensures multiset(s) == multiset(t)
  {
    forall x ensures multiset(s)[x] == multiset(t)[x] {
      AtMostOnce(s, x);
      AtMostOnce(t, x);
    }
  }

  /**
   * With distinct section names, each rejecting at most once, the failure list is at every moment the
   * declared names that have failed, in declaration order.
   */
  lemma FailedIsDeclarationOrder(events: seq<Event>)
    requires Declared(events) && Distinct(Run(events).declared) && Distinct(Log(events))
    ensures Run(events).failed == FailedOf(Run(events).declared, Log(events))
  {
    var declared, log := Run(events).declared, Log(events);
    var listed := FailedOf(declared, log);
    LogFacts(events);
    FailedOfShape(declared, log);
    forall x ensures x in listed <==> x in log { FailedOfMembers(declared, log, x); }
    DistinctMultiset(listed, log);
    SortBySorts(log, ByDeclaration(declared));
    IdentifiedByDeclaration(declared, listed);
    SortedIsUnique(listed, Run(events).failed, ByDeclaration(declared));
  }

  // ---- The loader's arrays, pushed to and sorted in place ----

  class Sections {
    var declared: seq<string>
    var failed: seq<string>

    ghost function State(): Loader
      reads this
    {
      Loader(declared, failed)
    }

    constructor ()
      ensures State() == Run([])
    {
      declared, failed := [], [];
    }

    method Load(name: string)
      modifies this`declared
      ensures declared == old(declared) + [name]
    {
      declared := declared + [name];
    }

    /** The section's promise rejected: one name more, and the list in order of first declaration. */
    method Reject(name: string)
      modifies this`failed
      ensures multiset(failed) == multiset(old(failed)) + multiset{name}
      ensures SortedBy(failed, ByDeclaration(declared))
      ensures State() == After(old(State()), Rejects(name))
    {
      failed := failed + [name];
      SortBySorts(failed, ByDeclaration(declared));
      failed := SortBy(failed, ByDeclaration(declared));
    }

    /**
     * Any interleaving of declarations and rejections, from nothing. With distinct names the list is
     * then the names that failed, in declaration order.
     */
    method Replay(events: seq<Event>)
      requires declared == failed == []
      modifies this
      ensures State() == Run(events)
      ensures Declared(events) && Distinct(declared) && Distinct(Log(events)) ==>
                failed == FailedOf(declared, Log(events))
    {
      for n := 0 to |events|
        invariant State() == Run(events[..n])
      {
        match events[n] {
          case Declare(name) => Load(name);
          case Rejects(name) => Reject(name);
        }
        assert events[..n + 1][..n] == events[..n];
      }
      assert events[..|events|] == events;
      if Declared(events) && Distinct(declared) && Distinct(Log(events)) { FailedIsDeclarationOrder(events); }
    }
  }
}
