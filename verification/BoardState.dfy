/** The board's own state, changed in place by moves, their answers and the dialog. */
module BoardState {
  import opened Board
  import opened BoardMoves
  import opened BoardUndo
  import opened Options

  class MoveBoard {
    var rows: map<string, Status>
    var placed: map<string, Column>
    var pending: set<string>
    var errors: map<string, MoveError>
    var chooser: Option<Chooser>
    var undo: map<string, Undo>
    var calls: seq<Call>

    ghost function State(): Desk
      reads this
    {
      Desk(rows, placed, pending, errors, chooser, undo, calls)
    }

    constructor (tasks: map<string, Status>)
      ensures State() == Opened(tasks)
    {
      rows, placed, pending, errors, chooser, undo, calls := tasks, map[], {}, map[], None, map[], [];
    }

    method BeginMove(key: string, target: Column)
      modifies this
      ensures State() == Begin(old(State()), key, target)
    {
      chooser := None;
      undo := undo - {key};
      placed := placed[key := target];
      pending := pending + {key};
      errors := errors - {key};
    }

    method SettleMove(key: string, target: Column, reason: Option<Reason>, back: bool)
      modifies this
      ensures State() == Settle(old(State()), key, target, reason, back)
    {
      placed := placed - {key};
      pending := pending - {key};
      if reason.Some? && !(reason.value.Refused? && reason.value.text == "") {
        errors := errors[key := MoveError(reason.value, target, back)];
      }
    }

    method RunTransition(c: Call)
      modifies this
      ensures State() == RunMove(old(State()), c)
    {
      BeginMove(c.key, c.target);
      calls := calls + [c.(kind := Moving)];
    }

    /** One way in runs at once, several open the chooser, none puts the reason on the card. */
    method Choose(c: Call, ts: seq<Transition>)
      modifies this
      ensures State() == Decide(old(State()), c, ts)
    {
      var moves := MovesInto(ts, c.target);
      if |moves| == 1 {
        RunTransition(c);
      } else if |moves| > 1 {
        SettleMove(c.key, c.target, None, false);
        chooser := Some(Chooser(c.key, c.target, c.from, c.back));
      } else {
        SettleMove(c.key, c.target, Some(NoWay(c.back)), c.back);
      }
    }

    method MoveCard(key: string, target: Column, back: bool, known: Option<seq<Transition>>)
      modifies this
      ensures State() == AfterStart(old(State()), key, target, back, known)
    {
      if key !in rows { return; }
      var from := if key in placed then placed[key] else ColumnOf(rows[key]);
      if from == target { return; }
      var c := Call(Loading, key, target, from, back);
      BeginMove(key, target);
      if known.Some? {
        Choose(c, known.value);
      } else {
        calls := calls + [c];
      }
    }

    method AnswerLoad(at: nat, loaded: Loaded)
      requires at < |calls| && calls[at].kind == Loading
      modifies this
      ensures State() == AfterLoad(old(State()), at, loaded)
    {
      var c := calls[at];
      calls := calls[..at] + calls[at + 1..];
      match loaded {
        case LoadFailed(error) => SettleMove(c.key, c.target, Some(Refused(error)), c.back);
        case Offered(ts) => Choose(c, ts);
      }
    }

    method AnswerMove(at: nat, moved: Moved)
      requires at < |calls| && calls[at].kind == Moving
      modifies this
      ensures State() == AfterMove(old(State()), at, moved)
    {
      var c := calls[at];
      calls := calls[..at] + calls[at + 1..];
      match moved {
        case MoveFailed(error) => SettleMove(c.key, c.target, Some(Refused(error)), c.back);
        case Acknowledged(status) =>
          if c.key in rows { rows := rows[c.key := status]; }
          if c.from != ColumnOf(status) { undo := undo[c.key := Undo(c.from, ColumnOf(status))]; }
          SettleMove(c.key, c.target, None, c.back);
      }
    }

    method PickTransition()
      modifies this
      ensures State() == AfterPick(old(State()))
    {
      if chooser.Some? {
        var c := chooser.value;
        RunTransition(Call(Moving, c.key, c.column, c.from, c.back));
      }
    }

    /** A status changed from the open ticket's dialog: Undo first, then the row. */
    method ChangeInDialog(key: string, status: Status)
      modifies this
      ensures State() == AfterDialog(old(State()), key, status)
    {
      if key !in rows { return; }
      var from := if key in placed then placed[key] else ColumnOf(rows[key]);
      if from != ColumnOf(status) { undo := undo[key := Undo(from, ColumnOf(status))]; }
      rows := rows[key := status];
    }

    method TakeDown(key: string)
      modifies this`errors
      ensures State() == old(State()).(errors := old(errors) - {key})
    {
      errors := errors - {key};
    }

    method StripGone(key: string)
      modifies this`undo
      ensures State() == old(State()).(undo := old(undo) - {key})
    {
      undo := undo - {key};
    }

    method CancelChoice()
      modifies this`chooser
      ensures State() == old(State()).(chooser := None)
    {
      chooser := None;
    }

    /** The call at `at` will never answer. */
    method LoseCall(at: nat)
      modifies this`calls
      ensures State() == After(old(State()), CallLost(at))
    {
      if at < |calls| { calls := calls[at := calls[at].(kind := Lost)]; }
    }

    method Perform(s: Step)
      modifies this
      ensures State() == After(old(State()), s)
      ensures old(Consistent(State())) && Guarded(old(State()), s) ==> Consistent(State())
    {
      if Consistent(State()) && Guarded(State(), s) { StepConsistent(State(), s); }
      match s {
        case StartMove(key, target, back, known) => MoveCard(key, target, back, known);
        case LoadReply(at, loaded) => if at < |calls| && calls[at].kind == Loading { AnswerLoad(at, loaded); }
        case MoveReply(at, moved) => if at < |calls| && calls[at].kind == Moving { AnswerMove(at, moved); }
        case Pick => PickTransition();
        case Cancel => CancelChoice();
        case Dismiss(key) => TakeDown(key);
        case DialogStatus(key, status) => ChangeInDialog(key, status);
        case UndoExpires(key) => StripGone(key);
        case CallLost(at) => LoseCall(at);
      }
    }

    /**
     * Any run of steps on a freshly opened board. If it is guarded, marks, placement, calls and errors
     * stay in step, every settled card stands where it was last acknowledged, and the strips are right
     * so long as every step met its condition.
     */
    method Replay(tasks: map<string, Status>, steps: seq<Step>)
      requires State() == Opened(tasks)
      modifies this
      ensures State() == Run(Opened(tasks), steps)
      ensures GuardedRun(Opened(tasks), steps) ==>
                && Consistent(State())
                && (forall k :: k in tasks && k !in pending ==> StandsAsAcknowledged(State(), PastOf(tasks, steps), k))
                && (AllKeep(tasks, steps) ==> StripsRight(State(), PastOf(tasks, steps)))
    {
      for n := 0 to |steps|
        invariant State() == Run(Opened(tasks), steps[..n])
      {
        Perform(steps[n]);
        assert steps[..n + 1][..n] == steps[..n];
      }
      assert steps[..|steps|] == steps;
      if GuardedRun(Opened(tasks), steps) {
        MovesStayConsistent(tasks, steps);
        forall k | k in tasks { SettledCardsStandWhereAcknowledged(tasks, steps, k); }
        UndoStaysTruthful(tasks, steps);
      }
    }
  }
}
