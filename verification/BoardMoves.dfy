/** Optimistic moves on the ticket board: cards placed before Jira has answered, and put back if it refuses. */
module BoardMoves {
  import opened Board
  import opened Options

  /** A request in flight; `move` awaits the offered transitions, `run` the transition itself. */
  datatype Call = Call(kind: CallKind, key: string, target: Column, from: Column, back: bool)

  /** A lost call never answers. */
  datatype CallKind = Loading | Moving | Lost

  datatype Reason = Refused(text: string) | NoWay(back: bool)

  datatype MoveError = MoveError(reason: Reason, target: Column, back: bool)

  datatype Chooser = Chooser(key: string, column: Column, from: Column, back: bool)

  datatype Undo = Undo(from: Column, to: Column)

  datatype Desk = Desk(
    rows: map<string, Status>,
    placed: map<string, Column>,
    pending: set<string>,
    errors: map<string, MoveError>,
    chooser: Option<Chooser>,
    undo: map<string, Undo>,
    calls: seq<Call>)

  datatype Loaded = Offered(ts: seq<Transition>) | LoadFailed(error: string)

  datatype Moved = Acknowledged(status: Status) | MoveFailed(error: string)

  datatype Step =
    | StartMove(key: string, target: Column, back: bool, known: Option<seq<Transition>>)
    | LoadReply(at: nat, loaded: Loaded)
    | MoveReply(at: nat, moved: Moved)
    | Pick
    | Cancel
    | Dismiss(key: string)
    | DialogStatus(key: string, status: Status)
    | UndoExpires(key: string)
    | CallLost(at: nat)

  /** Where a card is shown: its optimistic column, else its acknowledged one. */
  function ColOf(d: Desk, key: string): Column
    requires key in d.rows
  {
    if key in d.placed then d.placed[key] else ColumnOf(d.rows[key])
  }

  function Begin(d: Desk, key: string, target: Column): Desk {
    d.(chooser := None, undo := d.undo - {key}, placed := d.placed[key := target],
       pending := d.pending + {key}, errors := d.errors - {key})
  }

  function Settle(d: Desk, key: string, target: Column, reason: Option<Reason>, back: bool): Desk {
    var settled := d.(placed := d.placed - {key}, pending := d.pending - {key});
    if reason.None? || (reason.value.Refused? && reason.value.text == "") then settled
    else settled.(errors := settled.errors[key := MoveError(reason.value, target, back)])
  }

  function OfferUndo(d: Desk, key: string, from: Column, to: Column): Desk {
    if from == to then d else d.(undo := d.undo[key := Undo(from, to)])
  }

  function Patch(d: Desk, key: string, s: Status): Desk {
    if key in d.rows then d.(rows := d.rows[key := s]) else d
  }

  function RunMove(d: Desk, c: Call): Desk {
    var begun := Begin(d, c.key, c.target);
    begun.(calls := begun.calls + [c.(kind := Moving)])
  }

  /** What follows once the offered transitions are known. */
  function Decide(d: Desk, c: Call, ts: seq<Transition>): Desk {
    var moves := MovesInto(ts, c.target);
    if |moves| == 1 then RunMove(d, c)
    else if |moves| > 1 then
      Settle(d, c.key, c.target, None, false).(chooser := Some(Chooser(c.key, c.target, c.from, c.back)))
    else Settle(d, c.key, c.target, Some(NoWay(c.back)), c.back)
  }

  /** A successful move: the row takes the acknowledged status and Undo is offered. */
  function Told(d: Desk, c: Call, status: Status): Desk {
    OfferUndo(Patch(d, c.key, status), c.key, c.from, ColumnOf(status))
  }

  function Without(d: Desk, at: nat): Desk
    requires at < |d.calls|
  {
    d.(calls := d.calls[..at] + d.calls[at + 1..])
  }

  /** A drop, a menu choice, Undo or Retry; nothing when the card is already in that column. */
  function AfterStart(d: Desk, key: string, target: Column, back: bool, known: Option<seq<Transition>>): Desk {
    if key !in d.rows || ColOf(d, key) == target then d
    else
      var c := Call(Loading, key, target, ColOf(d, key), back);
      var begun := Begin(d, key, target);
      if known.Some? then Decide(begun, c, known.value) else begun.(calls := begun.calls + [c])
  }

  function AfterLoad(d: Desk, at: nat, loaded: Loaded): Desk {
    if at >= |d.calls| || d.calls[at].kind != Loading then d
    else
      var c, rest := d.calls[at], Without(d, at);
      match loaded
      case LoadFailed(error) => Settle(rest, c.key, c.target, Some(Refused(error)), c.back)
      case Offered(ts) => Decide(rest, c, ts)
  }

  function AfterMove(d: Desk, at: nat, moved: Moved): Desk {
    if at >= |d.calls| || d.calls[at].kind != Moving then d
    else
      var c, rest := d.calls[at], Without(d, at);
      match moved
      case MoveFailed(error) => Settle(rest, c.key, c.target, Some(Refused(error)), c.back)
      case Acknowledged(status) => Settle(Told(rest, c, status), c.key, c.target, None, c.back)
  }

  function AfterPick(d: Desk): Desk {
    if d.chooser.None? then d
    else
      var c := d.chooser.value;
      RunMove(d, Call(Moving, c.key, c.column, c.from, c.back))
  }

  /** A status changed from the open ticket's dialog: Undo is offered first, then the row patched. */
  function AfterDialog(d: Desk, key: string, status: Status): Desk {
    if key !in d.rows then d
    else Patch(OfferUndo(d, key, ColOf(d, key), ColumnOf(status)), key, status)
  }

  function After(d: Desk, s: Step): Desk {
    match s
    case StartMove(key, target, back, known) => AfterStart(d, key, target, back, known)
    case LoadReply(at, loaded) => AfterLoad(d, at, loaded)
    case MoveReply(at, moved) => AfterMove(d, at, moved)
    case Pick => AfterPick(d)
    case Cancel => d.(chooser := None)
    case Dismiss(key) => d.(errors := d.errors - {key})
    case DialogStatus(key, status) => AfterDialog(d, key, status)
    case UndoExpires(key) => d.(undo := d.undo - {key})
    case CallLost(at) => if at < |d.calls| then d.(calls := d.calls[at := d.calls[at].(kind := Lost)]) else d
  }

  function Run(d: Desk, steps: seq<Step>): Desk {
    if steps == [] then d else After(Run(d, steps[..|steps| - 1]), steps[|steps| - 1])
  }

  lemma RunSnoc(d: Desk, steps: seq<Step>, s: Step)
    ensures Run(d, steps + [s]) == After(Run(d, steps), s)
    ensures GuardedRun(d, steps + [s]) <==> GuardedRun(d, steps) && Guarded(Run(d, steps), s)
  {
    assert (steps + [s])[..|steps|] == steps;
  }

  /** A board as first shown. */
  function Opened(rows: map<string, Status>): Desk {
    Desk(rows, map[], {}, map[], None, map[], [])
  }

  // ---- Guards ----

  /** A pending card offers no drag, Move menu, Undo, Retry or hint. */
  predicate Guarded(d: Desk, s: Step) {
    s.StartMove? ==> s.key !in d.pending
  }

  ghost predicate GuardedRun(d: Desk, steps: seq<Step>) {
    steps == [] || (GuardedRun(d, steps[..|steps| - 1]) && Guarded(Run(d, steps[..|steps| - 1]), steps[|steps| - 1]))
  }

  /** A call of the card's has not answered, and perhaps never will. */
  predicate InFlight(d: Desk, key: string) {
    exists i :: 0 <= i < |d.calls| && d.calls[i].key == key
  }

  ghost predicate OneCallEach(d: Desk) {
    forall i, j :: 0 <= i < j < |d.calls| ==> d.calls[i].key != d.calls[j].key
  }

  ghost predicate ShownInTarget(d: Desk) {
    forall i :: 0 <= i < |d.calls| ==> d.calls[i].key in d.placed && d.placed[d.calls[i].key] == d.calls[i].target
  }

  /**
   * A card has an optimistic column exactly while pending, which is exactly while its one call is in
   * flight, and the column is that call's target; a pending card shows no error and is not the one
   * being chosen for.
   */
  ghost predicate Consistent(d: Desk) {
    && d.placed.Keys == d.pending
    && (forall k :: k in d.pending <==> InFlight(d, k))
    && OneCallEach(d) && ShownInTarget(d)
    && d.pending !! d.errors.Keys
    && d.pending <= d.rows.Keys
    && (d.chooser.Some? ==> d.chooser.value.key in d.rows && d.chooser.value.key !in d.pending)
    && d.undo.Keys <= d.rows.Keys
  }

  lemma WithoutCalls(d: Desk, at: nat)
    requires at < |d.calls| && OneCallEach(d)
    ensures OneCallEach(Without(d, at))
    ensures forall k :: InFlight(Without(d, at), k) <==> InFlight(d, k) && k != d.calls[at].key
    ensures ShownInTarget(d) ==> ShownInTarget(Without(d, at))
  {
    var e := Without(d, at);
    assert forall i :: 0 <= i < |e.calls| ==> e.calls[i] == d.calls[if i < at then i else i + 1];
    forall k | InFlight(d, k) && k != d.calls[at].key ensures InFlight(e, k) {
      var i :| 0 <= i < |d.calls| && d.calls[i].key == k;
      assert e.calls[if i < at then i else i - 1].key == k;
    }
  }

  lemma AddCall(d: Desk, c: Call)
    requires OneCallEach(d) && !InFlight(d, c.key)
    requires ShownInTarget(d) && c.key in d.placed && d.placed[c.key] == c.target
    ensures var e := d.(calls := d.calls + [c]);
            OneCallEach(e) && ShownInTarget(e) && forall k :: InFlight(e, k) <==> InFlight(d, k) || k == c.key
  {
    var e := d.(calls := d.calls + [c]);
    assert e.calls[|d.calls|] == c;
    forall k | InFlight(d, k) ensures InFlight(e, k) {
      var i :| 0 <= i < |d.calls| && d.calls[i].key == k;
      assert e.calls[i].key == k;
    }
  }

  /** `Consistent`, but for `key`, whose call has just come back or has yet to be made. */
  ghost predicate Between(d: Desk, key: string) {
    && d.placed.Keys == d.pending && key in d.pending
    && (forall k :: k in d.pending <==> InFlight(d, k) || k == key)
    && !InFlight(d, key) && OneCallEach(d) && ShownInTarget(d)
    && (d.pending - {key}) !! d.errors.Keys
    && d.pending <= d.rows.Keys
    && (d.chooser.Some? ==> d.chooser.value.key in d.rows && d.chooser.value.key !in d.pending)
    && d.undo.Keys <= d.rows.Keys
  }

  lemma SameCalls(d: Desk, e: Desk)
    requires e.calls == d.calls
    ensures forall k :: InFlight(e, k) <==> InFlight(d, k)
    ensures OneCallEach(e) <==> OneCallEach(d)
  {
  }

  lemma SettleConsistent(d: Desk, key: string, target: Column, reason: Option<Reason>, back: bool)
    requires Between(d, key) && key !in d.errors
    ensures Consistent(Settle(d, key, target, reason, back))
  {
    var e := Settle(d, key, target, reason, back);
    SameCalls(d, e);
    forall i | 0 <= i < |e.calls| ensures e.calls[i].key in e.placed && e.placed[e.calls[i].key] == e.calls[i].target {
      assert InFlight(d, d.calls[i].key);
    }
  }

  lemma BeginKeepsTargets(d: Desk, key: string, target: Column)
    requires ShownInTarget(d) && !InFlight(d, key)
    ensures ShownInTarget(Begin(d, key, target)) && !InFlight(Begin(d, key, target), key)
  {
    SameCalls(d, Begin(d, key, target));
  }

  lemma DecideConsistent(d: Desk, c: Call, ts: seq<Transition>)
    requires Between(d, c.key) && c.key !in d.errors
    ensures Consistent(Decide(d, c, ts))
  {
    var moves := MovesInto(ts, c.target);
    if |moves| == 1 {
      var begun := Begin(d, c.key, c.target);
      SameCalls(d, begun);
      BeginKeepsTargets(d, c.key, c.target);
      AddCall(begun, c.(kind := Moving));
    } else if |moves| > 1 {
      SettleConsistent(d, c.key, c.target, None, false);
      SameCalls(Settle(d, c.key, c.target, None, false), Decide(d, c, ts));
    } else {
      SettleConsistent(d, c.key, c.target, Some(NoWay(c.back)), c.back);
    }
  }

  lemma BeginBetween(d: Desk, key: string, target: Column)
    requires Consistent(d) && key in d.rows && key !in d.pending
    ensures Between(Begin(d, key, target), key) && key !in Begin(d, key, target).errors
  {
    SameCalls(d, Begin(d, key, target));
    BeginKeepsTargets(d, key, target);
  }

  lemma ReplyBetween(d: Desk, at: nat)
    requires Consistent(d) && at < |d.calls|
    ensures Between(Without(d, at), d.calls[at].key) && d.calls[at].key !in d.errors
  {
    WithoutCalls(d, at);
    assert InFlight(d, d.calls[at].key);
  }

  lemma StartConsistent(d: Desk, key: string, target: Column, back: bool, known: Option<seq<Transition>>)
    requires Consistent(d) && key !in d.pending
    ensures Consistent(AfterStart(d, key, target, back, known))
  {
    if key in d.rows && ColOf(d, key) != target {
      BeginBetween(d, key, target);
      var begun := Begin(d, key, target);
      var c := Call(Loading, key, target, ColOf(d, key), back);
      if known.Some? { DecideConsistent(begun, c, known.value); } else { AddCall(begun, c); }
    }
  }

  lemma LoadConsistent(d: Desk, at: nat, loaded: Loaded)
    requires Consistent(d)
    ensures Consistent(AfterLoad(d, at, loaded))
  {
    if at >= |d.calls| || d.calls[at].kind != Loading { return; }
    ReplyBetween(d, at);
    var c, rest := d.calls[at], Without(d, at);
    match loaded {
      case LoadFailed(error) => SettleConsistent(rest, c.key, c.target, Some(Refused(error)), c.back);
      case Offered(ts) => DecideConsistent(rest, c, ts);
    }
  }

  lemma MoveConsistent(d: Desk, at: nat, moved: Moved)
    requires Consistent(d)
    ensures Consistent(AfterMove(d, at, moved))
  {
    if at >= |d.calls| || d.calls[at].kind != Moving { return; }
    ReplyBetween(d, at);
    var c, rest := d.calls[at], Without(d, at);
    match moved {
      case MoveFailed(error) => SettleConsistent(rest, c.key, c.target, Some(Refused(error)), c.back);
      case Acknowledged(status) =>
        SameCalls(rest, Told(rest, c, status));
        SettleConsistent(Told(rest, c, status), c.key, c.target, None, c.back);
    }
  }

  lemma PickConsistent(d: Desk)
    requires Consistent(d)
    ensures Consistent(AfterPick(d))
  {
    if d.chooser.Some? {
      var c := d.chooser.value;
      BeginBetween(d, c.key, c.column);
      AddCall(Begin(d, c.key, c.column), Call(Moving, c.key, c.column, c.from, c.back));
    }
  }

  /** A step that leaves placement, pending marks and the calls' cards and targets alone. */
  lemma QuietConsistent(d: Desk, e: Desk)
    requires Consistent(d)
    requires |e.calls| == |d.calls|
    requires forall i :: 0 <= i < |e.calls| ==> e.calls[i].key == d.calls[i].key && e.calls[i].target == d.calls[i].target
    requires e.placed == d.placed && e.pending == d.pending && e.rows.Keys == d.rows.Keys
    requires e.errors.Keys <= d.errors.Keys && e.undo.Keys <= d.rows.Keys
    requires e.chooser.None? || e.chooser == d.chooser
    ensures Consistent(e)
  {
    forall k ensures InFlight(e, k) <==> InFlight(d, k) {
      if InFlight(d, k) {
        var i :| 0 <= i < |d.calls| && d.calls[i].key == k;
        assert e.calls[i].key == k;
      }
    }
  }

  /** The dialog touches one row and one strip. */
  lemma DialogTouches(d: Desk, key: string, status: Status)
    ensures var e := AfterDialog(d, key, status);
            && e == d.(rows := e.rows, undo := e.undo) && e.rows.Keys == d.rows.Keys
            && e.undo.Keys <= d.undo.Keys + d.rows.Keys
  {
  }

  lemma DialogConsistent(d: Desk, key: string, status: Status)
    requires Consistent(d)
    ensures Consistent(AfterDialog(d, key, status))
  {
    DialogTouches(d, key, status);
    QuietConsistent(d, AfterDialog(d, key, status));
  }

  lemma LossConsistent(d: Desk, at: nat)
    requires Consistent(d)
    ensures Consistent(After(d, CallLost(at)))
  {
    QuietConsistent(d, After(d, CallLost(at)));
  }

  lemma StepConsistent(d: Desk, s: Step)
    requires Consistent(d) && Guarded(d, s)
    ensures Consistent(After(d, s))
  {
    match s {
      case StartMove(key, target, back, known) => StartConsistent(d, key, target, back, known);
      case LoadReply(at, loaded) => LoadConsistent(d, at, loaded);
      case MoveReply(at, moved) => MoveConsistent(d, at, moved);
      case Pick => PickConsistent(d);
      case Cancel => QuietConsistent(d, After(d, s));
      case Dismiss(_) => QuietConsistent(d, After(d, s));
      case DialogStatus(key, status) => DialogConsistent(d, key, status);
      case UndoExpires(_) => QuietConsistent(d, After(d, s));
      case CallLost(at) => LossConsistent(d, at);
    }
  }

  /** Over every guarded run, calls lost or not, placement, pending marks, calls, errors and chooser stay in step. */
  lemma {:induction false} RunConsistent(d: Desk, steps: seq<Step>)
    requires Consistent(d) && GuardedRun(d, steps)
    ensures Consistent(Run(d, steps))
  {
    if steps != [] {
      RunConsistent(d, steps[..|steps| - 1]);
      StepConsistent(Run(d, steps[..|steps| - 1]), steps[|steps| - 1]);
    }
  }

  lemma MovesStayConsistent(rows: map<string, Status>, steps: seq<Step>)
    requires GuardedRun(Opened(rows), steps)
    ensures Consistent(Run(Opened(rows), steps))
  {
    RunConsistent(Opened(rows), steps);
  }

  // ---- What the guard is for ----

  /** Deciding makes one more call of the card's, or takes its mark away. */
  lemma DecideShape(d: Desk, c: Call, ts: seq<Transition>)
    ensures var e := Decide(d, c, ts);
            || e.calls == d.calls + [c.(kind := Moving)]
            || (e.calls == d.calls && c.key !in e.pending)
  {
  }

  lemma SecondStart(d: Desk, key: string, target: Column, back: bool, known: Option<seq<Transition>>)
    requires key in d.rows && ColOf(d, key) != target && InFlight(d, key)
    ensures !Consistent(AfterStart(d, key, target, back, known))
  {
    var e := AfterStart(d, key, target, back, known);
    var begun, c := Begin(d, key, target), Call(Loading, key, target, ColOf(d, key), back);
    if known.Some? { DecideShape(begun, c, known.value); }
    var i :| 0 <= i < |d.calls| && d.calls[i].key == key;
    assert e.calls[i] == d.calls[i];
    assert InFlight(e, key);
    if |e.calls| > |d.calls| { assert e.calls[|d.calls|].key == key; }
  }

  /** A start keeps the board consistent exactly when its card is not pending, or there is nothing to do. */
  lemma StartNeedsItsGuard(d: Desk, key: string, target: Column, back: bool, known: Option<seq<Transition>>)
    requires Consistent(d)
    ensures Consistent(AfterStart(d, key, target, back, known))
       <==> key !in d.pending || key !in d.rows || ColOf(d, key) == target
  {
    if key !in d.pending {
      StartConsistent(d, key, target, back, known);
    } else if key in d.rows && ColOf(d, key) != target {
      SecondStart(d, key, target, back, known);
    }
  }

  /** The pending mark of every card matches its calls; nothing is said about how many. */
  ghost predicate MarksMatchCalls(d: Desk) {
    d.placed.Keys == d.pending && forall k :: k in d.pending <==> InFlight(d, k)
  }

  lemma InFlightWithout(d: Desk, at: nat, k: string)
    requires at < |d.calls|
    ensures InFlight(Without(d, at), k) <==> exists j :: 0 <= j < |d.calls| && j != at && d.calls[j].key == k
  {
    var e := Without(d, at);
    assert forall i :: 0 <= i < |e.calls| ==> e.calls[i] == d.calls[if i < at then i else i + 1];
    if j :| 0 <= j < |d.calls| && j != at && d.calls[j].key == k {
      assert e.calls[if j < at then j else j - 1].key == k;
    }
  }

  /** A reply to the call at `at`: its transitions, or the outcome of its transition. */
  predicate Answers(d: Desk, s: Step, at: nat) {
    && at < |d.calls|
    && ((s.LoadReply? && s.at == at && d.calls[at].kind == Loading)
        || (s.MoveReply? && s.at == at && d.calls[at].kind == Moving))
  }

  /** The reply offers the one way in, which is then asked for at once. */
  predicate GoesOn(d: Desk, s: Step, at: nat)
    requires Answers(d, s, at)
  {
    s.LoadReply? && s.loaded.Offered? && |MovesInto(s.loaded.ts, d.calls[at].target)| == 1
  }

  ghost predicate OnlyCall(d: Desk, at: nat)
    requires at < |d.calls|
  {
    forall j :: 0 <= j < |d.calls| && j != at ==> d.calls[j].key != d.calls[at].key
  }

  lemma LoadSettles(d: Desk, at: nat, loaded: Loaded)
    requires Answers(d, LoadReply(at, loaded), at) && !GoesOn(d, LoadReply(at, loaded), at)
    ensures var e := AfterLoad(d, at, loaded);
            && e.calls == Without(d, at).calls && e.rows == d.rows && e.undo == d.undo
            && e.pending == d.pending - {d.calls[at].key} && e.placed == d.placed - {d.calls[at].key}
  {
  }

  lemma MoveSettles(d: Desk, at: nat, moved: Moved)
    requires Answers(d, MoveReply(at, moved), at)
    ensures var e := AfterMove(d, at, moved);
            && e.calls == Without(d, at).calls
            && e.pending == d.pending - {d.calls[at].key} && e.placed == d.placed - {d.calls[at].key}
  {
  }

  /** What every settling reply does to marks and calls. */
  lemma ReplySettles(d: Desk, s: Step, at: nat)
    requires Answers(d, s, at) && !GoesOn(d, s, at)
    ensures var e := After(d, s);
            && e.calls == Without(d, at).calls
            && e.pending == d.pending - {d.calls[at].key} && e.placed == d.placed - {d.calls[at].key}
  {
    if s.LoadReply? { LoadSettles(d, at, s.loaded); } else { MoveSettles(d, at, s.moved); }
  }

  /** A settling reply, good or bad, leaves every mark right exactly when its call is the card's only one. */
  lemma ReplyNeedsOneCall(d: Desk, s: Step, at: nat)
    requires MarksMatchCalls(d) && Answers(d, s, at) && !GoesOn(d, s, at)
    ensures MarksMatchCalls(After(d, s)) <==> OnlyCall(d, at)
  {
    var e, key := After(d, s), d.calls[at].key;
    ReplySettles(d, s, at);
    SameCalls(Without(d, at), e);
    forall k { InFlightWithout(d, at, k); }
    forall k | k != key ensures InFlight(e, k) <==> InFlight(d, k) {
      if InFlight(d, k) { var i :| 0 <= i < |d.calls| && d.calls[i].key == k; }
    }
  }

  /**
   * Two moves of one card in turn, the first then failing: the card shows as settled, with a call in
   * flight. A drag that starts on text selected inside a pending card gets past the card's guard.
   */
  lemma OverlappingMovesLoseTheMark(d: Desk, key: string, first: Column, second: Column, error: string)
    requires Consistent(d) && key in d.rows && key !in d.pending
    requires first != ColOf(d, key) && second != first
    ensures var e := AfterStart(AfterStart(d, key, first, false, None), key, second, false, None);
            var f := AfterLoad(e, |d.calls|, LoadFailed(error));
            key !in f.pending && InFlight(f, key)
  {
    var e := AfterStart(AfterStart(d, key, first, false, None), key, second, false, None);
    var c1 := Call(Loading, key, first, ColOf(d, key), false);
    var c2 := Call(Loading, key, second, first, false);
    assert e.calls == d.calls + [c1, c2];
    var f := AfterLoad(e, |d.calls|, LoadFailed(error));
    assert f.calls == e.calls[..|d.calls|] + e.calls[|d.calls| + 1..];
    assert f.calls[|d.calls|] == c2;
  }

  // ---- Calls that never answer ----

  /** The cards whose call was lost in a run. */
  function LostKeys(d: Desk, steps: seq<Step>): set<string> {
    if steps == [] then {}
    else
      var init, last := steps[..|steps| - 1], steps[|steps| - 1];
      var was := Run(d, init);
      LostKeys(d, init) + if last.CallLost? && last.at < |was.calls| then {was.calls[last.at].key} else {}
  }

  predicate HasLost(d: Desk, key: string) {
    exists i :: 0 <= i < |d.calls| && d.calls[i].key == key && d.calls[i].kind == Lost
  }

  /** The calls before a step, less the one it answers. */
  function Unanswered(d: Desk, s: Step): seq<Call> {
    match s
    case LoadReply(at, _) => if Answers(d, s, at) then Without(d, at).calls else d.calls
    case MoveReply(at, _) => if Answers(d, s, at) then Without(d, at).calls else d.calls
    case _ => d.calls
  }

  /** A step other than a loss keeps the unanswered calls and adds at most one, which is not lost. */
  lemma CallsAfter(d: Desk, s: Step)
    requires !s.CallLost?
    ensures var calls := After(d, s).calls;
            || calls == Unanswered(d, s)
            || exists c: Call :: c.kind != Lost && calls == Unanswered(d, s) + [c]
  {
    match s {
      case StartMove(key, target, back, known) =>
        if key in d.rows && known.Some? {
          DecideShape(Begin(d, key, target), Call(Loading, key, target, ColOf(d, key), back), known.value);
        }
      case LoadReply(at, loaded) =>
        if Answers(d, s, at) && loaded.Offered? { DecideShape(Without(d, at), d.calls[at], loaded.ts); }
      case MoveReply(at, moved) =>
        if Answers(d, s, at) { MoveSettles(d, at, moved); }
      case _ =>
    }
  }

  lemma UnansweredLost(d: Desk, s: Step, key: string)
    ensures HasLost(d.(calls := Unanswered(d, s)), key) <==> HasLost(d, key)
  {
    var calls := Unanswered(d, s);
    if HasLost(d, key) && calls != d.calls {
      var i :| 0 <= i < |d.calls| && d.calls[i].key == key && d.calls[i].kind == Lost;
      assert calls[if i < s.at then i else i - 1] == d.calls[i];
    }
  }

  /** A step other than the loss itself neither makes nor answers a lost call. */
  lemma LostStay(d: Desk, s: Step, key: string)
    ensures HasLost(After(d, s), key) <==>
            HasLost(d, key) || (s.CallLost? && s.at < |d.calls| && d.calls[s.at].key == key)
  {
    var e, calls := After(d, s), Unanswered(d, s);
    if s.CallLost? {
      LossIsLost(d, s.at, key);
    } else {
      CallsAfter(d, s);
      UnansweredLost(d, s, key);
      if HasLost(d, key) {
        var i :| 0 <= i < |calls| && calls[i].key == key && calls[i].kind == Lost;
        assert e.calls[i] == calls[i];
      }
    }
  }

  lemma LossIsLost(d: Desk, at: nat, key: string)
    ensures HasLost(After(d, CallLost(at)), key) <==> HasLost(d, key) || (at < |d.calls| && d.calls[at].key == key)
  {
    var e := After(d, CallLost(at));
    if HasLost(d, key) {
      var i :| 0 <= i < |d.calls| && d.calls[i].key == key && d.calls[i].kind == Lost;
      assert e.calls[i] == d.calls[i];
    }
    if at < |d.calls| && d.calls[at].key == key { assert e.calls[at].kind == Lost; }
  }

  lemma {:induction false} LostAreKept(d: Desk, steps: seq<Step>, key: string)
    ensures HasLost(Run(d, steps), key) <==> HasLost(d, key) || key in LostKeys(d, steps)
  {
    if steps != [] {
      var init := steps[..|steps| - 1];
      LostAreKept(d, init, key);
      LostStay(Run(d, init), steps[|steps| - 1], key);
    }
  }

  /** Some guarded run from here settles the card. */
  ghost predicate CanSettle(d: Desk, key: string) {
    exists more :: GuardedRun(d, more) && key !in Run(d, more).pending
  }

  lemma OneStep(d: Desk, s: Step)
    ensures Run(d, [s]) == After(d, s)
    ensures GuardedRun(d, [s]) <==> Guarded(d, s)
  {
    RunSnoc(d, [], s);
    assert [] + [s] == [s];
  }

  /** An unanswered call that is not lost can still fail, which settles its card. */
  lemma AnswerSettles(d: Desk, key: string)
    requires Consistent(d) && key in d.pending && !HasLost(d, key)
    ensures CanSettle(d, key)
  {
    var at :| 0 <= at < |d.calls| && d.calls[at].key == key;
    var s := if d.calls[at].kind == Loading then LoadReply(at, LoadFailed("")) else MoveReply(at, MoveFailed(""));
    assert d.calls[at].kind != Lost;
    ReplySettles(d, s, at);
    OneStep(d, s);
  }

  /** A card is pending for good exactly when a call of its own was lost; all others can still settle. */
  lemma LostCallsStick(rows: map<string, Status>, steps: seq<Step>, key: string)
    requires GuardedRun(Opened(rows), steps)
    ensures CanSettle(Run(Opened(rows), steps), key) <==> key !in LostKeys(Opened(rows), steps)
    ensures key in LostKeys(Opened(rows), steps) ==> key in Run(Opened(rows), steps).pending
  {
    var d := Run(Opened(rows), steps);
    MovesStayConsistent(rows, steps);
    LostAreKept(Opened(rows), steps, key);
    if HasLost(d, key) {
      assert InFlight(d, key);
      forall more | GuardedRun(d, more) ensures key in Run(d, more).pending {
        LostAreKept(d, more, key);
        RunConsistent(d, more);
        assert InFlight(Run(d, more), key);
      }
    } else if key in d.pending {
      AnswerSettles(d, key);
    } else {
      assert GuardedRun(d, []) && key !in Run(d, []).pending;
    }
  }

  // ---- What each step does, card by card ----

  /** The card a step is about. */
  function CardOf(d: Desk, s: Step): Option<string> {
    match s
    case StartMove(key, _, _, _) => Some(key)
    case LoadReply(at, _) => if at < |d.calls| then Some(d.calls[at].key) else None
    case MoveReply(at, _) => if at < |d.calls| then Some(d.calls[at].key) else None
    case Pick => if d.chooser.Some? then Some(d.chooser.value.key) else None
    case Dismiss(key) => Some(key)
    case DialogStatus(key, _) => Some(key)
    case UndoExpires(key) => Some(key)
    case Cancel => None
    case CallLost(_) => None
  }

  predicate SameEntry<V(==)>(m: map<string, V>, n: map<string, V>, k: string) {
    (k in m <==> k in n) && (k in m ==> m[k] == n[k])
  }

  /** Everything the board shows of a card is the same on both. */
  predicate SameCard(d: Desk, e: Desk, k: string) {
    && SameEntry(d.rows, e.rows, k) && SameEntry(d.placed, e.placed, k) && (k in d.pending <==> k in e.pending)
    && SameEntry(d.errors, e.errors, k) && SameEntry(d.undo, e.undo, k)
  }

  lemma SettleTouches(d: Desk, key: string, target: Column, reason: Option<Reason>, back: bool, k: string)
    requires k != key
    ensures SameCard(d, Settle(d, key, target, reason, back), k)
  {
  }

  lemma ToldTouches(d: Desk, c: Call, status: Status, k: string)
    requires k != c.key
    ensures SameCard(d, Told(d, c, status), k)
  {
  }

  lemma DecideTouches(d: Desk, c: Call, ts: seq<Transition>, k: string)
    requires k != c.key
    ensures SameCard(d, Decide(d, c, ts), k)
  {
    SettleTouches(d, c.key, c.target, None, false, k);
    SettleTouches(d, c.key, c.target, Some(NoWay(c.back)), c.back, k);
  }

  lemma StartTouches(d: Desk, key: string, target: Column, back: bool, known: Option<seq<Transition>>, k: string)
    requires k != key
    ensures SameCard(d, AfterStart(d, key, target, back, known), k)
  {
    if key in d.rows && ColOf(d, key) != target && known.Some? {
      DecideTouches(Begin(d, key, target), Call(Loading, key, target, ColOf(d, key), back), known.value, k);
    }
  }

  lemma LoadTouches(d: Desk, at: nat, loaded: Loaded, k: string)
    requires at < |d.calls| && k != d.calls[at].key
    ensures SameCard(d, AfterLoad(d, at, loaded), k)
  {
    var c, rest := d.calls[at], Without(d, at);
    match loaded {
      case Offered(ts) => DecideTouches(rest, c, ts, k);
      case LoadFailed(error) => SettleTouches(rest, c.key, c.target, Some(Refused(error)), c.back, k);
    }
  }

  lemma MoveTouches(d: Desk, at: nat, moved: Moved, k: string)
    requires at < |d.calls| && k != d.calls[at].key
    ensures SameCard(d, AfterMove(d, at, moved), k)
  {
    var c, rest := d.calls[at], Without(d, at);
    match moved {
      case MoveFailed(error) => SettleTouches(rest, c.key, c.target, Some(Refused(error)), c.back, k);
      case Acknowledged(status) =>
        ToldTouches(rest, c, status, k);
        SettleTouches(Told(rest, c, status), c.key, c.target, None, c.back, k);
    }
  }

  /** Every step leaves every other card as it was shown. */
  lemma StepsTouchOneCard(d: Desk, s: Step, k: string)
    requires CardOf(d, s) != Some(k)
    ensures SameCard(d, After(d, s), k)
  {
    match s {
      case StartMove(key, target, back, known) => StartTouches(d, key, target, back, known, k);
      case LoadReply(at, loaded) => if at < |d.calls| { LoadTouches(d, at, loaded, k); }
      case MoveReply(at, moved) => if at < |d.calls| { MoveTouches(d, at, moved, k); }
      case _ =>
    }
  }

  /** The card is shown in `target` and marked, with no error, strip or chooser left from before. */
  predicate OnItsWay(d: Desk, key: string, target: Column) {
    && key in d.pending && key in d.placed && d.placed[key] == target
    && key !in d.errors && key !in d.undo && d.chooser.None?
  }

  /** The card stands where its ticket does and is not marked. */
  predicate AtRest(d: Desk, key: string) {
    key !in d.pending && key !in d.placed
  }

  /** What a card's offered transitions lead to: the move at once, a choice, or a refusal naming the target. */
  ghost predicate Decided(d: Desk, e: Desk, c: Call, ts: seq<Transition>) {
    && e.rows == d.rows
    && match |MovesInto(ts, c.target)|
       case 0 =>
         && AtRest(e, c.key) && e.calls == d.calls && e.chooser == d.chooser
         && c.key in e.errors && e.errors[c.key] == MoveError(NoWay(c.back), c.target, c.back)
       case 1 =>
         OnItsWay(e, c.key, c.target) && e.calls == d.calls + [Call(Moving, c.key, c.target, c.from, c.back)]
       case _ =>
         && AtRest(e, c.key) && e.calls == d.calls && (c.key in e.errors <==> c.key in d.errors)
         && e.chooser == Some(Chooser(c.key, c.target, c.from, c.back))
  }

  lemma DecideDecides(d: Desk, c: Call, ts: seq<Transition>)
    ensures Decided(d, Decide(d, c, ts), c, ts)
  {
  }

  /** A start that has to ask places and marks its card and asks once. */
  lemma StartAsks(d: Desk, key: string, target: Column, back: bool)
    requires key in d.rows && ColOf(d, key) != target
    ensures var e := AfterStart(d, key, target, back, None);
            && OnItsWay(e, key, target) && e.rows == d.rows
            && e.calls == d.calls + [Call(Loading, key, target, ColOf(d, key), back)]
  {
  }

  /** A start that knows the transitions ends as if it had asked and been answered with them. */
  lemma KnownStartIsAnswered(d: Desk, key: string, target: Column, back: bool, ts: seq<Transition>)
    requires key in d.rows && ColOf(d, key) != target
    ensures AfterStart(d, key, target, back, Some(ts))
         == AfterLoad(AfterStart(d, key, target, back, None), |d.calls|, Offered(ts))
  {
    var e := AfterStart(d, key, target, back, None);
    StartAsks(d, key, target, back);
    assert Without(e, |d.calls|).calls == d.calls;
    assert Without(e, |d.calls|) == Begin(d, key, target);
  }

  /** A menu choice: with the transitions known, the move is asked for at once, chosen, or refused. */
  lemma MenuMove(d: Desk, key: string, target: Column, back: bool, ts: seq<Transition>)
    requires key in d.rows && ColOf(d, key) != target
    ensures var e := AfterStart(d, key, target, back, Some(ts));
            && e.rows == d.rows && key !in e.undo
            && (key in e.pending <==> |MovesInto(ts, target)| == 1)
            && (key in e.errors <==> MovesInto(ts, target) == [])
            && (|MovesInto(ts, target)| == 1 ==>
                  OnItsWay(e, key, target) && e.calls == d.calls + [Call(Moving, key, target, ColOf(d, key), back)])
            && (|MovesInto(ts, target)| > 1 ==> e.chooser == Some(Chooser(key, target, ColOf(d, key), back)))
            && (MovesInto(ts, target) == [] ==>
                  e.errors[key] == MoveError(NoWay(back), target, back) && e.chooser.None?)
            && (|MovesInto(ts, target)| != 1 ==> AtRest(e, key) && e.calls == d.calls)
  {
    DecideDecides(Begin(d, key, target), Call(Loading, key, target, ColOf(d, key), back), ts);
  }

  /** The offered transitions are decided upon with the answered call gone. */
  lemma OfferIsDecided(d: Desk, at: nat, ts: seq<Transition>)
    requires at < |d.calls| && d.calls[at].kind == Loading
    ensures Decided(Without(d, at), AfterLoad(d, at, Offered(ts)), d.calls[at], ts)
  {
    DecideDecides(Without(d, at), d.calls[at], ts);
  }

  /** A pick asks for the chosen card's move to the column it was chosen for, and closes the chooser. */
  lemma PickAsks(d: Desk)
    requires d.chooser.Some?
    ensures var c, e := d.chooser.value, AfterPick(d);
            && OnItsWay(e, c.key, c.column) && e.rows == d.rows
            && e.calls == d.calls + [Call(Moving, c.key, c.column, c.from, c.back)]
  {
  }

  /** An acknowledged move: the ticket has its new status and the card is at rest, its call gone. */
  lemma MoveArrives(d: Desk, at: nat, status: Status)
    requires at < |d.calls| && d.calls[at].kind == Moving && d.calls[at].key in d.rows
    ensures var c, e := d.calls[at], AfterMove(d, at, Acknowledged(status));
            && AtRest(e, c.key) && c.key in e.rows && e.rows[c.key] == status && ColOf(e, c.key) == ColumnOf(status)
            && e.calls == d.calls[..at] + d.calls[at + 1..] && e.chooser == d.chooser && e.errors == d.errors
  {
  }

  /** A refused call: the card is at rest, the ticket as it was, and the reason, if any, names the target. */
  lemma RefusalReturns(d: Desk, at: nat, error: string)
    requires at < |d.calls| && d.calls[at].kind != Lost
    ensures var c := d.calls[at];
            var e := if c.kind == Moving then AfterMove(d, at, MoveFailed(error)) else AfterLoad(d, at, LoadFailed(error));
            && AtRest(e, c.key) && e.rows == d.rows && e.undo == d.undo && e.chooser == d.chooser
            && e.calls == d.calls[..at] + d.calls[at + 1..]
            && e.errors == if error == "" then d.errors
                           else d.errors[c.key := MoveError(Refused(error), c.target, c.back)]
  {
  }

  /** When a step finds nothing to do. */
  lemma IdleSteps(d: Desk, s: Step)
    ensures s.StartMove? && (s.key !in d.rows || ColOf(d, s.key) == s.target) ==> After(d, s) == d
    ensures s.DialogStatus? && s.key !in d.rows ==> After(d, s) == d
    ensures s.Pick? && d.chooser.None? ==> After(d, s) == d
    ensures (s.LoadReply? || s.MoveReply?) && !Answers(d, s, s.at) ==> After(d, s) == d
  {
  }

  /** The steps that only take something down. */
  lemma TakeDowns(d: Desk, key: string)
    ensures After(d, Cancel) == d.(chooser := None)
    ensures key !in After(d, Dismiss(key)).errors && After(d, Dismiss(key)).(errors := d.errors) == d
    ensures key !in After(d, UndoExpires(key)).undo && After(d, UndoExpires(key)).(undo := d.undo) == d
  {
  }
}
