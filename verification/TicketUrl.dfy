/** The ticket dialog mirrored in `?ticket=` over the browser's session history. */
module TicketUrl {
  import opened Options

  /**
   * The history entries' `ticket` parameters and which entry is current, the hook's `pushed` flag,
   * the open ticket, and the traversals (`history.back()`, Back, Forward) the browser has yet to perform.
   */
  datatype Nav = Nav(
    entries: seq<Option<string>>, cur: nat, pushed: bool, open: Option<string>, queue: seq<int>)

  datatype Action = Open(key: string) | Close | Back | Forward | Settle

  predicate InRange(n: Nav) {
    n.cur < |n.entries|
  }

  /** The board ticket an entry names; an empty or unknown key names none. */
  function Names(entry: Option<string>, known: set<string>): Option<string> {
    if entry.Some? && entry.value != "" && entry.value in known then entry else None
  }

  function Read(n: Nav, known: set<string>): Option<string>
    requires InRange(n)
  {
    Names(n.entries[n.cur], known)
  }

  function WriteKey(n: Nav, key: Option<string>, push: bool): Nav
    requires InRange(n)
  {
    var entry := if key.Some? && key.value != "" then key else None;
    if push then n.(entries := n.entries[..n.cur + 1] + [entry], cur := n.cur + 1)
    else n.(entries := n.entries[n.cur := entry])
  }

  /** A card was opened: a new entry, or the current one replaced when another ticket was open. */
  function OpenCard(n: Nav, key: string): Nav
    requires InRange(n)
  {
    var written := WriteKey(n, Some(key), n.open.None?);
    written.(pushed := n.pushed || n.open.None?, open := Some(key))
  }

  function CloseDialog(n: Nav): Nav
    requires InRange(n)
  {
    if n.pushed then n.(pushed := false, queue := n.queue + [-1], open := None)
    else WriteKey(n, None, false).(open := None)
  }

  /** The oldest pending traversal; one that leaves the history does nothing here. */
  function SettleOne(n: Nav, known: set<string>): Nav
    requires InRange(n)
  {
    if n.queue == [] then n
    else
      var target, rest := n.cur + n.queue[0], n.(queue := n.queue[1..]);
      if 0 <= target < |n.entries| then
        var moved := rest.(cur := target, pushed := false);
        moved.(open := Read(moved, known))
      else rest
  }

  function Step(n: Nav, known: set<string>, a: Action): (m: Nav)
    requires InRange(n)
    ensures InRange(m)
  {
    match a
    case Open(key) => OpenCard(n, key)
    case Close => CloseDialog(n)
    case Back => n.(queue := n.queue + [-1])
    case Forward => n.(queue := n.queue + [1])
    case Settle => SettleOne(n, known)
  }

  function Run(n: Nav, known: set<string>, actions: seq<Action>): (m: Nav)
    requires InRange(n)
    ensures InRange(m)
  {
    if actions == [] then n
    else Step(Run(n, known, actions[..|actions| - 1]), known, actions[|actions| - 1])
  }

  /** The page just loaded on some entry of a history of any content. */
  function Mount(entries: seq<Option<string>>, cur: nat, known: set<string>): Nav
    requires cur < |entries|
  {
    Nav(entries, cur, false, Names(entries[cur], known), [])
  }

  /** Only tickets of the board, whose keys are not empty, are opened. */
  predicate OnBoard(a: Action, known: set<string>) {
    a.Open? ==> a.key in known && a.key != ""
  }

  // ---- Dialog and address agree whenever nothing is pending ----

  /** They differ only right after a close whose `history.back()` is still pending and will move. */
  ghost predicate Agrees(n: Nav, known: set<string>) {
    && InRange(n)
    && (n.pushed ==> n.cur > 0)
    && (n.open.Some? ==> n.open.value in known && n.open.value != "")
    && (n.open == Read(n, known) || (n.open.None? && n.cur > 0 && -1 in n.queue))
  }

  lemma StepAgrees(n: Nav, known: set<string>, a: Action)
    requires Agrees(n, known) && OnBoard(a, known)
    ensures Agrees(Step(n, known, a), known)
  {
    if a.Settle? && n.queue != [] {
      assert n.queue == [n.queue[0]] + n.queue[1..];
    }
  }

  /** After any run, interleaved with traversals in any way, a settled dialog shows what the address names. */
  lemma {:induction false} DialogFollowsAddress(
    entries: seq<Option<string>>, cur: nat, known: set<string>, actions: seq<Action>)
    requires cur < |entries| && forall a :: a in actions ==> OnBoard(a, known)
    ensures var n := Run(Mount(entries, cur, known), known, actions);
            && Agrees(n, known)
            && (n.queue == [] ==>
                  forall key :: n.open == Some(key) <==> n.entries[n.cur] == Some(key) && key in known && key != "")
  {
    if actions != [] {
      DialogFollowsAddress(entries, cur, known, actions[..|actions| - 1]);
      StepAgrees(Run(Mount(entries, cur, known), known, actions[..|actions| - 1]), known, actions[|actions| - 1]);
    }
  }

  // ---- One Back closes the dialog ----

  /** While `pushed` is set, the entry below names no board ticket. */
  ghost predicate ClearBelow(n: Nav, known: set<string>) {
    && Agrees(n, known)
    && (n.pushed ==> forall key :: key in known && key != "" ==> n.entries[n.cur - 1] != Some(key))
  }

  /** Every user action waits until earlier traversals have settled. */
  ghost predicate Patient(n: Nav, known: set<string>, actions: seq<Action>)
    requires InRange(n)
  {
    actions == [] ||
      (var init, last := actions[..|actions| - 1], actions[|actions| - 1];
       Patient(n, known, init) && (last.Settle? || Run(n, known, init).queue == []))
  }

  lemma StepClears(n: Nav, known: set<string>, a: Action)
    requires Agrees(n, known) && OnBoard(a, known)
    ensures ClearBelow(n, known) && (a.Settle? || n.queue == []) ==> ClearBelow(Step(n, known, a), known)
  {
    StepAgrees(n, known, a);
  }

  lemma {:induction false} PushedSitsAboveTheBoard(
    entries: seq<Option<string>>, cur: nat, known: set<string>, actions: seq<Action>)
    requires cur < |entries| && forall a :: a in actions ==> OnBoard(a, known)
    requires Patient(Mount(entries, cur, known), known, actions)
    ensures ClearBelow(Run(Mount(entries, cur, known), known, actions), known)
  {
    if actions != [] {
      var init, last := actions[..|actions| - 1], actions[|actions| - 1];
      PushedSitsAboveTheBoard(entries, cur, known, init);
      StepClears(Run(Mount(entries, cur, known), known, init), known, last);
    }
  }

  /** Back and Close both leave the dialog shut on the same history, and Forward opens the ticket again. */
  lemma OneBackCloses(n: Nav, known: set<string>)
    requires ClearBelow(n, known) && n.pushed && n.queue == []
    ensures var backed := Step(Step(n, known, Back), known, Settle);
            var closed := Step(Step(n, known, Close), known, Settle);
            && backed == closed && closed.open.None? && Read(closed, known).None?
            && closed.entries == n.entries && closed.queue == []
            && Step(Step(closed, known, Forward), known, Settle) == n.(pushed := false)
  {
  }

  // ---- When an action does not wait ----

  /**
   * Closing and opening another ticket before the pending `history.back()` has settled: the new
   * ticket stays open exactly when the close had nothing to take back, otherwise the old one returns.
   */
  lemma CloseThenOpenAtOnce(n: Nav, known: set<string>, key: string)
    requires Agrees(n, known) && n.queue == [] && n.open.Some?
    requires key in known && key != "" && Some(key) != n.open
    ensures var m := Step(Step(Step(n, known, Close), known, Open(key)), known, Settle);
            && m.queue == [] && (m.open == Some(key) <==> !n.pushed)
            && (n.pushed ==> m.open == n.open)
  {
  }

  /** What opening and asking for a traversal do to the history. */
  lemma ActionsOnHistory(n: Nav, known: set<string>, key: string)
    requires Agrees(n, known) && key in known && key != ""
    ensures var next := Step(n, known, Open(key));
            && next.open == Some(key) && next.queue == n.queue
            && next.entries[..n.cur] == n.entries[..n.cur]
            && (n.open.None? ==> next.entries[n.cur] == n.entries[n.cur] && |next.entries| == n.cur + 2
                                 && next.entries[n.cur + 1] == Some(key) && next.cur == n.cur + 1 && next.pushed)
            && (n.open.Some? ==> next.entries[n.cur] == Some(key) && next.entries[n.cur + 1..] == n.entries[n.cur + 1..]
                                 && next.cur == n.cur && next.pushed == n.pushed)
    ensures var next := Step(n, known, Close);
            && next.open.None? && next.cur == n.cur && !next.pushed
            && (if n.pushed then next.entries == n.entries && next.queue == n.queue + [-1]
                else next.entries == n.entries[n.cur := None] && next.queue == n.queue)
    ensures Step(n, known, Back) == n.(queue := n.queue + [-1])
    ensures Step(n, known, Forward) == n.(queue := n.queue + [1])
  {
  }

  /** From a board page: open A, close it, open B at once, and the dialog ends up on A. */
  lemma ClosedTicketComesBack()
    ensures var known := {"A-1", "B-2"};
            var n := Run(Mount([None], 0, known), known, [Open("A-1"), Close, Open("B-2"), Settle]);
            n.queue == [] && n.open == Some("A-1")
  {
    var known := {"A-1", "B-2"};
    var actions := [Open("A-1"), Close, Open("B-2"), Settle];
    var m := Mount([None], 0, known);
    assert actions[..3][..2] == [Open("A-1"), Close] && [Open("A-1"), Close][..1] == [Open("A-1")];
    assert Run(m, known, [Open("A-1")]) == OpenCard(m, "A-1");
    assert Run(m, known, [Open("A-1"), Close]) == CloseDialog(OpenCard(m, "A-1"));
    assert actions[..3] == [Open("A-1"), Close, Open("B-2")];
    CloseThenOpenAtOnce(OpenCard(m, "A-1"), known, "B-2");
  }

  // ---- The hook ----

  class Dialog {
    const known: set<string>
    var entries: seq<Option<string>>
    var cur: nat
    var pushed: bool
    var openKey: Option<string>
    var queue: seq<int>

    ghost function State(): Nav
      reads this
    {
      Nav(entries, cur, pushed, openKey, queue)
    }

    constructor (known: set<string>, entries: seq<Option<string>>, cur: nat)
      requires cur < |entries|
      ensures this.known == known && State() == Mount(entries, cur, known)
    {
      this.known, this.entries, this.cur := known, entries, cur;
      pushed, queue, openKey := false, [], Names(entries[cur], known);
    }

    method WriteUrl(key: Option<string>, push: bool)
      requires InRange(State())
      modifies this`entries, this`cur
      ensures State() == WriteKey(old(State()), key, push)
    {
      var entry := if key.Some? && key.value != "" then key else None;
      if push {
        entries := entries[..cur + 1] + [entry];
        cur := cur + 1;
      } else {
        entries := entries[cur := entry];
      }
    }

    /** A card was opened. */
    method Opened(key: string)
      requires Agrees(State(), known) && key in known && key != ""
      modifies this`entries, this`cur, this`pushed, this`openKey
      ensures State() == OpenCard(old(State()), key)
      ensures Agrees(State(), known) && openKey == Some(key) && queue == old(queue)
      ensures if old(openKey).None? then entries == old(entries[..cur + 1]) + [Some(key)] && cur == old(cur) + 1 && pushed
              else entries == old(entries)[old(cur) := Some(key)] && cur == old(cur) && pushed == old(pushed)
    {
      var switching := openKey.Some?;
      WriteUrl(Some(key), !switching);
      if !switching { pushed := true; }
      openKey := Some(key);
    }

    /** The dialog was closed: at once, or as soon as the traversal asked for here is performed. */
    method Closed()
      requires Agrees(State(), known)
      modifies this`entries, this`cur, this`pushed, this`openKey, this`queue
      ensures State() == CloseDialog(old(State()))
      ensures Agrees(State(), known) && openKey.None? && cur == old(cur)
      ensures if old(pushed) then entries == old(entries) && queue == old(queue) + [-1]
              else entries == old(entries)[cur := None] && queue == old(queue)
    {
      if !pushed {
        WriteUrl(None, false);
      } else {
        pushed := false;
        queue := queue + [-1];
      }
      openKey := None;
    }

    /** Back or Forward is pressed; the browser performs it later. */
    method Ask(delta: int)
      requires Agrees(State(), known)
      modifies this`queue
      ensures Agrees(State(), known) && queue == old(queue) + [delta]
    {
      queue := queue + [delta];
    }

    /** The browser performs the oldest traversal and, if it moved, reports it to the hook. */
    method Traverse()
      requires Agrees(State(), known)
      modifies this`cur, this`pushed, this`openKey, this`queue
      ensures State() == SettleOne(old(State()), known)
      ensures Agrees(State(), known) && entries == old(entries)
      ensures old(queue) == [] ==> State() == old(State())
      ensures old(queue) != [] ==>
                var target := old(cur + queue[0]);
                && queue == old(queue[1..])
                && if 0 <= target < |entries| then
                     && cur == target && !pushed
                     && forall key :: openKey == Some(key) <==> entries[cur] == Some(key) && key in known && key != ""
                   else cur == old(cur) && pushed == old(pushed) && openKey == old(openKey)
    {
      StepAgrees(State(), known, Settle);
      if queue == [] { return; }
      var target := cur + queue[0];
      queue := queue[1..];
      if 0 <= target < |entries| {
        cur := target;
        OnPop();
      }
    }

    method OnPop()
      requires InRange(State())
      modifies this`pushed, this`openKey
      ensures State() == old(State()).(pushed := false, open := Read(old(State()), known))
    {
      pushed := false;
      openKey := Names(entries[cur], known);
    }

    /**
     * Any run of actions on a history of any length: the hook's state is the run's, and once nothing is
     * pending the dialog shows what the address names. If every action waited, a pushed entry also
     * still sits above one that names no board ticket.
     */
    method Replay(actions: seq<Action>)
      requires Agrees(State(), known) && forall a :: a in actions ==> OnBoard(a, known)
      modifies this
      ensures State() == Run(old(State()), known, actions)
      ensures Agrees(State(), known)
      ensures queue == [] ==>
                forall key :: openKey == Some(key) <==> entries[cur] == Some(key) && key in known && key != ""
      ensures old(ClearBelow(State(), known)) && Patient(old(State()), known, actions) ==> ClearBelow(State(), known)
    {
      ghost var start := State();
      for n := 0 to |actions|
        invariant State() == Run(start, known, actions[..n]) && Agrees(State(), known)
        invariant ClearBelow(start, known) && Patient(start, known, actions[..n]) ==> ClearBelow(State(), known)
      {
        ghost var was := State();
        assert OnBoard(actions[n], known);
        match actions[n] {
          case Open(key) => Opened(key);
          case Close => Closed();
          case Back => Ask(-1);
          case Forward => Ask(1);
          case Settle => Traverse();
        }
        assert actions[..n + 1][..n] == actions[..n];
        StepClears(was, known, actions[n]);
      }
      assert actions[..|actions|] == actions;
    }
  }
}
