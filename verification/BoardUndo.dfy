/** Where cards have stood, and where Undo leads them back to. */
module BoardUndo {
  import opened Board
  import opened BoardMoves
  import opened Options

  /**
   * What a run has been through: each ticket's acknowledged statuses in order, the first one included,
   * and the column each card was acknowledged in when its latest move began.
   */
  datatype Past = Past(trail: map<string, seq<Status>>, began: map<string, Column>)

  /** The ticket and status a step acknowledges, if any. */
  function Acknowledges(d: Desk, s: Step): Option<(string, Status)> {
    if s.MoveReply? && s.at < |d.calls| && d.calls[s.at].kind == Moving && s.moved.Acknowledged? then
      Some((d.calls[s.at].key, s.moved.status))
    else if s.DialogStatus? then Some((s.key, s.status))
    else None
  }

  predicate Begins(d: Desk, s: Step) {
    s.StartMove? && s.key in d.rows && ColOf(d, s.key) != s.target
  }

  function PastAfter(d: Desk, past: Past, s: Step): Past {
    var ack := Acknowledges(d, s);
    if ack.Some? && ack.value.0 in past.trail then
      past.(trail := past.trail[ack.value.0 := past.trail[ack.value.0] + [ack.value.1]])
    else if Begins(d, s) then past.(began := past.began[s.key := ColumnOf(d.rows[s.key])])
    else past
  }

  function PastOf(rows: map<string, Status>, steps: seq<Step>): Past {
    if steps == [] then Past(map k | k in rows :: [rows[k]], map[])
    else
      var init := steps[..|steps| - 1];
      PastAfter(Run(Opened(rows), init), PastOf(rows, init), steps[|steps| - 1])
  }

  // ---- Statuses change only when Jira acknowledges ----

  /** Each row holds the last status acknowledged for it. */
  ghost predicate RowsFollow(d: Desk, past: Past) {
    && past.trail.Keys == d.rows.Keys
    && forall k :: k in d.rows ==> past.trail[k] != [] && past.trail[k][|past.trail[k]| - 1] == d.rows[k]
  }

  /** What deciding leaves alone. */
  lemma DecideFrame(d: Desk, c: Call, ts: seq<Transition>)
    ensures var e := Decide(d, c, ts);
            && e.rows == d.rows
            && (e.undo == d.undo - {c.key} || e.undo == d.undo)
            && (e.calls == d.calls || e.calls == d.calls + [c.(kind := Moving)])
            && (e.chooser == d.chooser || e.chooser.None? || e.chooser == Some(Chooser(c.key, c.target, c.from, c.back)))
  {
  }

  lemma StepRows(d: Desk, s: Step)
    ensures After(d, s).rows ==
            var ack := Acknowledges(d, s);
            if ack.Some? && ack.value.0 in d.rows then d.rows[ack.value.0 := ack.value.1] else d.rows
  {
    match s {
      case StartMove(key, target, back, known) =>
        if key in d.rows && known.Some? {
          DecideFrame(Begin(d, key, target), Call(Loading, key, target, ColOf(d, key), back), known.value);
        }
      case LoadReply(at, loaded) =>
        if at < |d.calls| && loaded.Offered? { DecideFrame(Without(d, at), d.calls[at], loaded.ts); }
      case _ =>
    }
  }

  lemma RowFollows(d: Desk, past: Past, e: Desk, next: Past, ack: Option<(string, Status)>)
    requires RowsFollow(d, past)
    requires e.rows == if ack.Some? && ack.value.0 in d.rows then d.rows[ack.value.0 := ack.value.1] else d.rows
    requires next.trail == if ack.Some? && ack.value.0 in past.trail
                           then past.trail[ack.value.0 := past.trail[ack.value.0] + [ack.value.1]] else past.trail
    ensures RowsFollow(e, next)
  {
  }

  lemma StepFollows(d: Desk, past: Past, s: Step)
    requires RowsFollow(d, past)
    ensures RowsFollow(After(d, s), PastAfter(d, past, s))
  {
    StepRows(d, s);
    RowFollows(d, past, After(d, s), PastAfter(d, past, s), Acknowledges(d, s));
  }

  /** After any run at all, guarded or not, a ticket's status is the last one acknowledged for it. */
  lemma {:induction false} StatusIsLastAcknowledged(rows: map<string, Status>, steps: seq<Step>)
    ensures RowsFollow(Run(Opened(rows), steps), PastOf(rows, steps))
    ensures PastOf(rows, steps).trail.Keys == rows.Keys
  {
    if steps != [] {
      var init := steps[..|steps| - 1];
      StatusIsLastAcknowledged(rows, init);
      StepFollows(Run(Opened(rows), init), PastOf(rows, init), steps[|steps| - 1]);
    }
  }

  /** The card is shown in the column of the last status acknowledged for its ticket. */
  ghost predicate StandsAsAcknowledged(d: Desk, past: Past, key: string) {
    && key in d.rows && key in past.trail && past.trail[key] != []
    && ColOf(d, key) == ColumnOf(past.trail[key][|past.trail[key]| - 1])
  }

  /**
   * A card that is not pending stands in the column of its last acknowledged status: whatever moves
   * were tried on it, those that failed, were refused or were never chosen left it where it was.
   */
  lemma SettledCardsStandWhereAcknowledged(rows: map<string, Status>, steps: seq<Step>, key: string)
    requires GuardedRun(Opened(rows), steps) && key in rows
    ensures key !in Run(Opened(rows), steps).pending ==>
              StandsAsAcknowledged(Run(Opened(rows), steps), PastOf(rows, steps), key)
  {
    MovesStayConsistent(rows, steps);
    StatusIsLastAcknowledged(rows, steps);
  }

  // ---- Moves remember where they began ----

  ghost predicate Stood(trail: seq<Status>, column: Column) {
    exists i :: 0 <= i < |trail| && ColumnOf(trail[i]) == column
  }

  lemma StoodSnoc(trail: seq<Status>, s: Status, column: Column)
    ensures Stood(trail + [s], column) <==> Stood(trail, column) || ColumnOf(s) == column
  {
    if Stood(trail, column) {
      var i :| 0 <= i < |trail| && ColumnOf(trail[i]) == column;
      assert ColumnOf((trail + [s])[i]) == column;
    }
    assert (trail + [s])[|trail|] == s;
  }

  ghost predicate FromWhereItBegan(past: Past, key: string, from: Column) {
    key in past.began && from == past.began[key]
  }

  ghost predicate CallsRemember(d: Desk, past: Past) {
    forall i :: 0 <= i < |d.calls| ==> FromWhereItBegan(past, d.calls[i].key, d.calls[i].from)
  }

  /** Calls and chooser carry the column their move began in, which its card has been acknowledged in. */
  ghost predicate Remembers(d: Desk, past: Past) {
    && RowsFollow(d, past) && CallsRemember(d, past)
    && (d.chooser.Some? ==> FromWhereItBegan(past, d.chooser.value.key, d.chooser.value.from))
    && forall k :: k in past.began ==> k in past.trail && Stood(past.trail[k], past.began[k])
  }

  lemma BeganStood(d: Desk, past: Past, s: Step)
    requires Remembers(d, past)
    ensures var next := PastAfter(d, past, s);
            forall k :: k in next.began ==> k in next.trail && Stood(next.trail[k], next.began[k])
  {
    var next := PastAfter(d, past, s);
    forall k | k in next.began ensures k in next.trail && Stood(next.trail[k], next.began[k]) {
      if next.trail != past.trail {
        StoodSnoc(past.trail[k], Acknowledges(d, s).value.1, past.began[k]);
      } else if next.began != past.began && k == s.key {
        var trail := past.trail[k];
        assert ColumnOf(trail[|trail| - 1]) == next.began[k];
      }
    }
  }

  /** What a start adds: at most one call or a chooser, from the column the ticket is in, noted as the beginning. */
  lemma StartShape(d: Desk, past: Past, s: Step)
    requires Consistent(d) && s.StartMove? && Guarded(d, s) && Begins(d, s)
    ensures var e, from := After(d, s), ColumnOf(d.rows[s.key]);
            && PastAfter(d, past, s).began == past.began[s.key := from]
            && |d.calls| <= |e.calls| <= |d.calls| + 1 && e.calls[..|d.calls|] == d.calls
            && (|e.calls| > |d.calls| ==> e.calls[|d.calls|].key == s.key && e.calls[|d.calls|].from == from)
            && (e.chooser.Some? ==> e.chooser.value.key == s.key && e.chooser.value.from == from)
  {
    var begun, c := Begin(d, s.key, s.target), Call(Loading, s.key, s.target, ColOf(d, s.key), s.back);
    assert c.from == ColumnOf(d.rows[s.key]);
    if s.known.Some? { DecideFrame(begun, c, s.known.value); }
  }

  lemma StartRemembers(d: Desk, past: Past, s: Step)
    requires Consistent(d) && Remembers(d, past) && s.StartMove? && Guarded(d, s) && Begins(d, s)
    ensures var e, next := After(d, s), PastAfter(d, past, s);
            CallsRemember(e, next) && (e.chooser.Some? ==> FromWhereItBegan(next, e.chooser.value.key, e.chooser.value.from))
  {
    StartShape(d, past, s);
    assert s.key !in d.pending;
    NotedOnce(d, past, After(d, s), PastAfter(d, past, s), s.key, ColumnOf(d.rows[s.key]));
  }

  /** A card without calls gets a new beginning, and at most one call that carries it. */
  lemma NotedOnce(d: Desk, past: Past, e: Desk, next: Past, key: string, from: Column)
    requires CallsRemember(d, past) && !InFlight(d, key) && next.began == past.began[key := from]
    requires |d.calls| <= |e.calls| <= |d.calls| + 1 && e.calls[..|d.calls|] == d.calls
    requires |e.calls| > |d.calls| ==> e.calls[|d.calls|].key == key && e.calls[|d.calls|].from == from
    ensures CallsRemember(e, next)
  {
    forall i | 0 <= i < |e.calls| ensures FromWhereItBegan(next, e.calls[i].key, e.calls[i].from) {
      if i < |d.calls| {
        assert e.calls[i] == e.calls[..|d.calls|][i] == d.calls[i];
        assert FromWhereItBegan(past, d.calls[i].key, d.calls[i].from);
      }
    }
  }

  lemma WithoutRemembers(d: Desk, past: Past, at: nat)
    requires CallsRemember(d, past) && at < |d.calls|
    ensures CallsRemember(Without(d, at), past)
  {
    var e := Without(d, at);
    forall i | 0 <= i < |e.calls| ensures FromWhereItBegan(past, e.calls[i].key, e.calls[i].from) {
      var j := if i < at then i else i + 1;
      assert e.calls[i] == d.calls[j] && FromWhereItBegan(past, d.calls[j].key, d.calls[j].from);
    }
  }

  /** Any step but a start leaves `began` alone, so calls and chooser go on remembering. */
  lemma ReplyRemembers(d: Desk, past: Past, at: nat, loaded: Loaded)
    requires Remembers(d, past) && at < |d.calls| && d.calls[at].kind == Loading
    ensures var e := AfterLoad(d, at, loaded);
            CallsRemember(e, past) && (e.chooser.Some? ==> FromWhereItBegan(past, e.chooser.value.key, e.chooser.value.from))
  {
    var c, rest := d.calls[at], Without(d, at);
    WithoutRemembers(d, past, at);
    assert FromWhereItBegan(past, c.key, c.from);
    if loaded.Offered? { DecideFrame(rest, c, loaded.ts); }
  }

  lemma MovedRemembers(d: Desk, past: Past, at: nat, moved: Moved)
    requires CallsRemember(d, past) && at < |d.calls| && d.calls[at].kind == Moving
    ensures CallsRemember(AfterMove(d, at, moved), past) && AfterMove(d, at, moved).chooser == d.chooser
  {
    MoveSettles(d, at, moved);
    WithoutRemembers(d, past, at);
  }

  lemma OtherRemembers(d: Desk, past: Past, s: Step)
    requires Remembers(d, past) && !s.StartMove? && !s.LoadReply?
    ensures var e := After(d, s);
            CallsRemember(e, past) && (e.chooser.Some? ==> FromWhereItBegan(past, e.chooser.value.key, e.chooser.value.from))
  {
    if s.MoveReply? && Answers(d, s, s.at) {
      MovedRemembers(d, past, s.at, s.moved);
    } else if s.CallLost? && s.at < |d.calls| {
      assert FromWhereItBegan(past, d.calls[s.at].key, d.calls[s.at].from);
    }
  }

  lemma StepRemembers(d: Desk, past: Past, s: Step)
    requires Consistent(d) && Remembers(d, past) && Guarded(d, s)
    ensures Remembers(After(d, s), PastAfter(d, past, s))
  {
    StepFollows(d, past, s);
    BeganStood(d, past, s);
    if Begins(d, s) {
      StartRemembers(d, past, s);
    } else if s.LoadReply? && Answers(d, s, s.at) {
      ReplyRemembers(d, past, s.at, s.loaded);
    } else if !s.StartMove? && !s.LoadReply? {
      OtherRemembers(d, past, s);
    }
  }

  lemma {:induction false} MovesRememberWhereTheyBegan(rows: map<string, Status>, steps: seq<Step>)
    requires GuardedRun(Opened(rows), steps)
    ensures Remembers(Run(Opened(rows), steps), PastOf(rows, steps))
  {
    if steps != [] {
      var init := steps[..|steps| - 1];
      MovesRememberWhereTheyBegan(rows, init);
      MovesStayConsistent(rows, init);
      StepRemembers(Run(Opened(rows), init), PastOf(rows, init), steps[|steps| - 1]);
    }
  }

  // ---- Outcomes of a move ----

  /**
   * A move that does not go through names, on the card, the column the card was shown in meanwhile,
   * and shows the card where it was; several ways in open a chooser for that column instead.
   */
  lemma FailureNamesTheTarget(
    rows: map<string, Status>, steps: seq<Step>, at: nat, error: string, ts: seq<Transition>)
    requires GuardedRun(Opened(rows), steps)
    requires at < |Run(Opened(rows), steps).calls| && Run(Opened(rows), steps).calls[at].kind != Lost
    ensures var d := Run(Opened(rows), steps);
            var key := d.calls[at].key;
            key in d.placed && key in d.rows
    ensures var d := Run(Opened(rows), steps);
            var c := d.calls[at];
            var e := if c.kind == Moving then AfterMove(d, at, MoveFailed(error)) else AfterLoad(d, at, LoadFailed(error));
            && (c.key in e.errors <==> error != "")
            && (c.key in e.errors ==> e.errors[c.key].target == d.placed[c.key] && e.errors[c.key].reason == Refused(error))
            && c.key in e.rows && c.key !in e.pending && ColOf(e, c.key) == ColumnOf(d.rows[c.key]) && e.undo == d.undo
    ensures var d := Run(Opened(rows), steps);
            var c, began := d.calls[at], PastOf(rows, steps).began;
            var ways, e := |MovesInto(ts, d.placed[c.key])|, AfterLoad(d, at, Offered(ts));
            c.key in began && (c.kind == Loading ==>
              && (c.key in e.pending <==> ways == 1)
              && (c.key in e.errors <==> ways == 0)
              && (ways > 1 ==> e.chooser == Some(Chooser(c.key, d.placed[c.key], began[c.key], c.back))))
  {
    var d := Run(Opened(rows), steps);
    MovesStayConsistent(rows, steps);
    MovesRememberWhereTheyBegan(rows, steps);
    assert InFlight(d, d.calls[at].key) && FromWhereItBegan(PastOf(rows, steps), d.calls[at].key, d.calls[at].from);
    if d.calls[at].kind == Moving {
      MoveFails(d, at, error);
    } else {
      LoadFails(d, at, error);
      OfferDecides(d, at, ts);
    }
  }

  /** The card is back where it was, and shows the reason unless that is empty. */
  ghost predicate FailedMove(d: Desk, c: Call, error: string, e: Desk) {
    && (c.key in e.errors <==> error != "")
    && (c.key in e.errors ==> e.errors[c.key].target == c.target && e.errors[c.key].reason == Refused(error))
    && e.rows == d.rows && e.undo == d.undo && c.key !in e.pending && c.key !in e.placed
  }

  lemma MoveFails(d: Desk, at: nat, error: string)
    requires Consistent(d) && at < |d.calls| && d.calls[at].kind == Moving
    ensures FailedMove(d, d.calls[at], error, AfterMove(d, at, MoveFailed(error)))
  {
    assert InFlight(d, d.calls[at].key);
  }

  lemma LoadFails(d: Desk, at: nat, error: string)
    requires Consistent(d) && at < |d.calls| && d.calls[at].kind == Loading
    ensures FailedMove(d, d.calls[at], error, AfterLoad(d, at, LoadFailed(error)))
  {
    assert InFlight(d, d.calls[at].key);
  }

  lemma OfferDecides(d: Desk, at: nat, ts: seq<Transition>)
    requires Consistent(d) && at < |d.calls| && d.calls[at].kind == Loading
    ensures var c := d.calls[at];
            var ways, e := |MovesInto(ts, c.target)|, AfterLoad(d, at, Offered(ts));
            && (c.key in e.pending <==> ways == 1)
            && (c.key in e.errors <==> ways == 0)
            && (ways > 1 ==> e.chooser == Some(Chooser(c.key, c.target, c.from, c.back)))
  {
    assert InFlight(d, d.calls[at].key);
  }

  /**
   * A successful move: the card stands where Jira says, and Undo leads back to the column the move
   * began in, one its ticket was acknowledged in before, unless that is where it stands again.
   */
  lemma UndoLeadsBack(rows: map<string, Status>, steps: seq<Step>, at: nat, status: Status)
    requires GuardedRun(Opened(rows), steps)
    requires var d := Run(Opened(rows), steps); at < |d.calls| && d.calls[at].kind == Moving
    ensures var d, past := Run(Opened(rows), steps), PastOf(rows, steps);
            var key, e := d.calls[at].key, AfterMove(d, at, Acknowledged(status));
            && key in e.rows && key !in e.pending && key !in e.errors
            && ColOf(e, key) == ColumnOf(status)
            && key in past.began && key in past.trail && Stood(past.trail[key], past.began[key])
            && e.undo == if past.began[key] == ColumnOf(status) then d.undo
                         else d.undo[key := Undo(past.began[key], ColumnOf(status))]
  {
    var d := Run(Opened(rows), steps);
    MovesStayConsistent(rows, steps);
    MovesRememberWhereTheyBegan(rows, steps);
    assert InFlight(d, d.calls[at].key) && FromWhereItBegan(PastOf(rows, steps), d.calls[at].key, d.calls[at].from);
  }

  // ---- When Undo tells the truth ----

  /**
   * A strip leads from another column to the one its ticket was last acknowledged in, and back to one
   * it was acknowledged in before that.
   */
  ghost predicate StripRight(d: Desk, past: Past, key: string)
    requires key in d.undo
  {
    var u := d.undo[key];
    && key in d.rows && u.from != u.to && u.to == ColumnOf(d.rows[key])
    && key in past.trail && past.trail[key] != [] && Stood(past.trail[key][..|past.trail[key]| - 1], u.from)
  }

  ghost predicate StripsRight(d: Desk, past: Past) {
    forall k :: k in d.undo ==> StripRight(d, past, k)
  }

  /**
   * What a status change in the dialog, or an acknowledgement, must meet. The dialog offers Undo back
   * to where the card is shown, which has to be a column the ticket has stood in; and when nothing is
   * offered because the columns are the same, a strip from before must still lead to the ticket's column.
   */
  ghost predicate Keeps(d: Desk, past: Past, s: Step) {
    match s
    case DialogStatus(key, status) =>
      key in d.rows ==>
        if ColOf(d, key) == ColumnOf(status) then key in d.undo ==> ColumnOf(d.rows[key]) == ColumnOf(status)
        else key in past.trail && Stood(past.trail[key], ColOf(d, key))
    case MoveReply(at, Acknowledged(status)) =>
      Answers(d, s, at) ==>
        var c := d.calls[at];
        c.from == ColumnOf(status) && c.key in d.undo && c.key in d.rows ==> ColumnOf(d.rows[c.key]) == ColumnOf(status)
    case _ => true
  }

  /** Strips of other cards, and strips merely removed, are as right as before. */
  lemma SameStrips(d: Desk, past: Past, e: Desk, next: Past)
    requires StripsRight(d, past) && e.rows == d.rows && next.trail == past.trail
    requires forall k :: k in e.undo ==> k in d.undo && e.undo[k] == d.undo[k]
    ensures StripsRight(e, next)
  {
    forall k | k in e.undo ensures StripRight(e, next, k) { assert StripRight(d, past, k); }
  }

  /** One ticket is acknowledged as `status` after the statuses `earlier`; the other strips stay. */
  lemma OneStrip(d: Desk, past: Past, e: Desk, next: Past, key: string, earlier: seq<Status>, status: Status)
    requires StripsRight(d, past) && key in d.rows
    requires e.rows == d.rows[key := status] && next.trail == past.trail[key := earlier + [status]]
    requires forall k :: k in e.undo && k != key ==> k in d.undo && e.undo[k] == d.undo[k]
    ensures StripsRight(e, next) <==>
            (key in e.undo ==>
              && e.undo[key].from != e.undo[key].to && e.undo[key].to == ColumnOf(status)
              && Stood(earlier, e.undo[key].from))
  {
    assert (earlier + [status])[..|earlier|] == earlier;
    forall k | k in e.undo && k != key ensures StripRight(e, next, k) {
      assert StripRight(d, past, k);
    }
    assert key in e.undo ==> (StripRight(e, next, key) <==>
      e.undo[key].from != e.undo[key].to && e.undo[key].to == ColumnOf(status) && Stood(earlier, e.undo[key].from));
  }

  /** A strip that leads back to an earlier column still does after one more acknowledgement. */
  lemma StillStood(d: Desk, past: Past, key: string)
    requires key in d.undo && StripRight(d, past, key)
    ensures Stood(past.trail[key], d.undo[key].from)
  {
    var trail := past.trail[key];
    StoodSnoc(trail[..|trail| - 1], trail[|trail| - 1], d.undo[key].from);
    assert trail[..|trail| - 1] + [trail[|trail| - 1]] == trail;
  }

  lemma DialogFields(d: Desk, past: Past, key: string, told: Status)
    requires key in d.rows && key in past.trail
    ensures var mid := AfterDialog(d, key, told);
            && mid.calls == d.calls && mid.rows == d.rows[key := told]
            && mid.undo == if ColOf(d, key) == ColumnOf(told) then d.undo
                           else d.undo[key := Undo(ColOf(d, key), ColumnOf(told))]
    ensures PastAfter(d, past, DialogStatus(key, told)).trail == past.trail[key := past.trail[key] + [told]]
  {
  }

  lemma DialogStrips(d: Desk, past: Past, key: string, status: Status)
    requires RowsFollow(d, past) && StripsRight(d, past)
    ensures StripsRight(AfterDialog(d, key, status), PastAfter(d, past, DialogStatus(key, status)))
       <==> Keeps(d, past, DialogStatus(key, status))
  {
    var e, next := AfterDialog(d, key, status), PastAfter(d, past, DialogStatus(key, status));
    if key in d.rows {
      DialogFields(d, past, key, status);
      OneStrip(d, past, e, next, key, past.trail[key], status);
      if key in d.undo { StillStood(d, past, key); }
    } else {
      SameStrips(d, past, e, next);
    }
  }

  lemma AcknowledgedStrips(d: Desk, past: Past, at: nat, status: Status)
    requires Consistent(d) && Remembers(d, past) && StripsRight(d, past)
    requires at < |d.calls| && d.calls[at].kind == Moving
    ensures var s := MoveReply(at, Acknowledged(status));
            StripsRight(After(d, s), PastAfter(d, past, s)) <==> Keeps(d, past, s)
  {
    var s, c := MoveReply(at, Acknowledged(status)), d.calls[at];
    CallsStood(d, past, at);
    AcknowledgedFields(d, at, status);
    AcknowledgedTrail(d, past, at, status);
    OneStrip(d, past, After(d, s), PastAfter(d, past, s), c.key, past.trail[c.key], status);
    if c.key in d.undo { StillStood(d, past, c.key); }
  }

  lemma AcknowledgedTrail(d: Desk, past: Past, at: nat, status: Status)
    requires at < |d.calls| && d.calls[at].kind == Moving && d.calls[at].key in past.trail
    ensures PastAfter(d, past, MoveReply(at, Acknowledged(status))).trail
         == past.trail[d.calls[at].key := past.trail[d.calls[at].key] + [status]]
  {
  }

  lemma AcknowledgedFields(d: Desk, at: nat, status: Status)
    requires at < |d.calls| && d.calls[at].kind == Moving && d.calls[at].key in d.rows
    ensures var c, e := d.calls[at], AfterMove(d, at, Acknowledged(status));
            && e.rows == d.rows[c.key := status]
            && e.undo == if c.from == ColumnOf(status) then d.undo else d.undo[c.key := Undo(c.from, ColumnOf(status))]
  {
  }

  /** A step that acknowledges nothing offers no strip and changes none. */
  lemma UnacknowledgedStrips(d: Desk, s: Step)
    requires Acknowledges(d, s).None?
    ensures var e := After(d, s); forall k :: k in e.undo ==> k in d.undo && e.undo[k] == d.undo[k]
  {
    match s {
      case StartMove(key, target, back, known) =>
        if key in d.rows && known.Some? {
          DecideFrame(Begin(d, key, target), Call(Loading, key, target, ColOf(d, key), back), known.value);
        }
      case LoadReply(at, loaded) =>
        if at < |d.calls| && loaded.Offered? { DecideFrame(Without(d, at), d.calls[at], loaded.ts); }
      case _ =>
    }
  }

  /** One step keeps the strips right exactly when it meets `Keeps`. */
  lemma StepStrips(d: Desk, past: Past, s: Step)
    requires Consistent(d) && Remembers(d, past) && Guarded(d, s) && StripsRight(d, past)
    ensures StripsRight(After(d, s), PastAfter(d, past, s)) <==> Keeps(d, past, s)
  {
    if s.DialogStatus? {
      DialogStrips(d, past, s.key, s.status);
    } else if Acknowledges(d, s).Some? {
      AcknowledgedStrips(d, past, s.at, s.moved.status);
    } else {
      StepRows(d, s);
      UnacknowledgedStrips(d, s);
      SameStrips(d, past, After(d, s), PastAfter(d, past, s));
    }
  }

  ghost predicate AlwaysRight(rows: map<string, Status>, steps: seq<Step>) {
    && StripsRight(Run(Opened(rows), steps), PastOf(rows, steps))
    && (steps != [] ==> AlwaysRight(rows, steps[..|steps| - 1]))
  }

  ghost predicate AllKeep(rows: map<string, Status>, steps: seq<Step>) {
    steps != [] ==>
      var init := steps[..|steps| - 1];
      AllKeep(rows, init) && Keeps(Run(Opened(rows), init), PastOf(rows, init), steps[|steps| - 1])
  }

  /** Over every guarded run, each strip is right at every moment if and only if each step meets its condition. */
  lemma {:induction false} UndoStaysTruthful(rows: map<string, Status>, steps: seq<Step>)
    requires GuardedRun(Opened(rows), steps)
    ensures AlwaysRight(rows, steps) <==> AllKeep(rows, steps)
  {
    if steps != [] {
      var init := steps[..|steps| - 1];
      UndoStaysTruthful(rows, init);
      MovesStayConsistent(rows, init);
      MovesRememberWhereTheyBegan(rows, init);
      if AllKeep(rows, init) { StepStrips(Run(Opened(rows), init), PastOf(rows, init), steps[|steps| - 1]); }
    }
  }

  // ---- A guard that is enough ----

  /** The dialog leaves pending cards alone. */
  predicate DialogWaits(d: Desk, s: Step) {
    s.DialogStatus? ==> s.key !in d.pending
  }

  ghost predicate PatientRun(d: Desk, steps: seq<Step>) {
    steps == [] || (PatientRun(d, steps[..|steps| - 1]) && DialogWaits(Run(d, steps[..|steps| - 1]), steps[|steps| - 1]))
  }

  ghost predicate NoUndoWhilePending(d: Desk) {
    d.pending !! d.undo.Keys
  }

  /** A card that becomes pending loses its strip, and only an acknowledgement offers one. */
  lemma StepPending(d: Desk, s: Step)
    requires NoUndoWhilePending(d) && DialogWaits(d, s) && (s.MoveReply? ==> !Answers(d, s, s.at))
    ensures NoUndoWhilePending(After(d, s))
  {
  }

  lemma AnswerPending(d: Desk, at: nat, moved: Moved)
    requires NoUndoWhilePending(d) && at < |d.calls| && d.calls[at].kind == Moving
    ensures NoUndoWhilePending(AfterMove(d, at, moved))
  {
    MoveSettles(d, at, moved);
  }

  lemma PatientKeeps(d: Desk, past: Past, s: Step)
    requires Consistent(d) && RowsFollow(d, past) && NoUndoWhilePending(d) && DialogWaits(d, s)
    ensures Keeps(d, past, s) && NoUndoWhilePending(After(d, s))
  {
    if s.MoveReply? && Answers(d, s, s.at) {
      assert InFlight(d, d.calls[s.at].key);
      AnswerPending(d, s.at, s.moved);
    } else {
      StepPending(d, s);
    }
    if s.DialogStatus? && s.key in d.rows {
      var trail := past.trail[s.key];
      assert ColumnOf(trail[|trail| - 1]) == ColOf(d, s.key);
    }
  }

  /** When the dialog waits for pending cards, every step meets its condition and no pending card has a strip. */
  lemma {:induction false} PatientRunsStayRight(rows: map<string, Status>, steps: seq<Step>)
    requires GuardedRun(Opened(rows), steps) && PatientRun(Opened(rows), steps)
    ensures AllKeep(rows, steps) && AlwaysRight(rows, steps) && NoUndoWhilePending(Run(Opened(rows), steps))
  {
    if steps != [] {
      var init := steps[..|steps| - 1];
      PatientRunsStayRight(rows, init);
      MovesStayConsistent(rows, init);
      StatusIsLastAcknowledged(rows, init);
      PatientKeeps(Run(Opened(rows), init), PastOf(rows, init), steps[|steps| - 1]);
    }
    UndoStaysTruthful(rows, steps);
  }

  // ---- The dialog during a move ----

  /** Every unanswered call of the card's moves it to the column its ticket is in already. */
  ghost predicate CallsGoNowhere(d: Desk, key: string)
    requires key in d.rows
  {
    forall i :: 0 <= i < |d.calls| && d.calls[i].key == key ==> d.calls[i].target == ColumnOf(d.rows[key])
  }

  /**
   * In every guarded run the dialog's strip starts at the ticket's own column exactly when no call of
   * the card's is under way to another one, which is when the card is not placed elsewhere.
   */
  lemma DialogUndoStarts(rows: map<string, Status>, steps: seq<Step>, key: string, status: Status)
    requires GuardedRun(Opened(rows), steps) && key in Run(Opened(rows), steps).rows
    requires ColOf(Run(Opened(rows), steps), key) != ColumnOf(status)
    ensures var d := Run(Opened(rows), steps);
            var e := AfterDialog(d, key, status);
            && key in e.undo && e.undo[key].to == ColumnOf(status)
            && (e.undo[key].from == ColumnOf(d.rows[key]) <==> CallsGoNowhere(d, key))
            && (CallsGoNowhere(d, key) <==> key !in d.placed || d.placed[key] == ColumnOf(d.rows[key]))
  {
    MovesStayConsistent(rows, steps);
    DialogStripStarts(Run(Opened(rows), steps), key, status);
  }

  lemma DialogStripStarts(d: Desk, key: string, status: Status)
    requires Consistent(d) && key in d.rows && ColOf(d, key) != ColumnOf(status)
    ensures var e := AfterDialog(d, key, status);
            && key in e.undo && e.undo[key].to == ColumnOf(status)
            && (e.undo[key].from == ColumnOf(d.rows[key]) <==> CallsGoNowhere(d, key))
            && (CallsGoNowhere(d, key) <==> key !in d.placed || d.placed[key] == ColumnOf(d.rows[key]))
  {
    assert key in d.placed <==> InFlight(d, key);
    assert forall i :: 0 <= i < |d.calls| && d.calls[i].key == key ==> InFlight(d, key);
  }

  /** The ticket was told `told` in the dialog, then acknowledged as `answer` by the move `c`. */
  lemma TwiceAcknowledged(d: Desk, past: Past, e: Desk, next: Past, c: Call, told: Status, answer: Status)
    requires StripsRight(d, past) && c.key in d.rows && c.key in d.placed && c.key in past.trail
    requires Stood(past.trail[c.key], c.from)
    requires e.rows == d.rows[c.key := answer]
    requires next.trail == past.trail[c.key := past.trail[c.key] + [told] + [answer]]
    requires forall k :: k in e.undo && k != c.key ==> k in d.undo && e.undo[k] == d.undo[k]
    requires c.from != ColumnOf(answer) ==> c.key in e.undo && e.undo[c.key] == Undo(c.from, ColumnOf(answer))
    requires c.from == ColumnOf(answer) && d.placed[c.key] != ColumnOf(told) ==>
               c.key in e.undo && e.undo[c.key] == Undo(d.placed[c.key], ColumnOf(told))
    requires c.from == ColumnOf(answer) && d.placed[c.key] == ColumnOf(told) ==> e.undo == d.undo
    ensures StripsRight(e, next) <==> RightAfterBoth(d, past, c, told, answer)
  {
    var trail := past.trail[c.key];
    OneStrip(d, past, e, next, c.key, trail + [told], answer);
    StoodSnoc(trail, told, c.from);
    StoodSnoc(trail, told, d.placed[c.key]);
    if c.key in d.undo {
      StillStood(d, past, c.key);
      StoodSnoc(trail, told, d.undo[c.key].from);
    }
  }

  /** When the strips are right after a dialog change and the acknowledgement of the move under way. */
  ghost predicate RightAfterBoth(d: Desk, past: Past, c: Call, told: Status, answer: Status)
    requires c.key in d.placed && c.key in past.trail
  {
    || c.from != ColumnOf(answer)
    || if d.placed[c.key] == ColumnOf(told) then c.key in d.undo ==> d.undo[c.key].to == ColumnOf(answer)
       else ColumnOf(told) == ColumnOf(answer) && Stood(past.trail[c.key], d.placed[c.key])
  }

  /** The call's card is shown in its target, and its move began in a column its ticket has stood in. */
  ghost predicate CallStood(d: Desk, past: Past, at: nat) {
    && at < |d.calls| && d.calls[at].key in d.rows && d.calls[at].key in d.placed
    && d.calls[at].key in past.trail && Stood(past.trail[d.calls[at].key], d.calls[at].from)
  }

  lemma CallsStood(d: Desk, past: Past, at: nat)
    requires Consistent(d) && Remembers(d, past) && at < |d.calls|
    ensures CallStood(d, past, at)
  {
    assert InFlight(d, d.calls[at].key) && FromWhereItBegan(past, d.calls[at].key, d.calls[at].from);
  }

  lemma AcknowledgedAfterDialog(d: Desk, past: Past, at: nat, told: Status, answer: Status)
    requires StripsRight(d, past) && CallStood(d, past, at) && d.calls[at].kind == Moving
    ensures var c, s := d.calls[at], MoveReply(at, Acknowledged(answer));
            var mid, then_ := AfterDialog(d, c.key, told), PastAfter(d, past, DialogStatus(c.key, told));
            var right := StripsRight(AfterMove(mid, at, Acknowledged(answer)), PastAfter(mid, then_, s));
            right <==> RightAfterBoth(d, past, c, told, answer)
  {
    var c, s := d.calls[at], MoveReply(at, Acknowledged(answer));
    var mid, then_ := AfterDialog(d, c.key, told), PastAfter(d, past, DialogStatus(c.key, told));
    DialogFields(d, past, c.key, told);
    AcknowledgedFields(mid, at, answer);
    AcknowledgedTrail(mid, then_, at, answer);
    assert d.rows[c.key := told][c.key := answer] == d.rows[c.key := answer];
    TwiceAcknowledged(d, past, AfterMove(mid, at, Acknowledged(answer)), PastAfter(mid, then_, s), c, told, answer);
  }

  lemma EqualStrips(d: Desk, past: Past, e: Desk, next: Past)
    requires e.rows == d.rows && e.undo == d.undo && next.trail == past.trail
    ensures StripsRight(e, next) <==> StripsRight(d, past)
  {
    if StripsRight(d, past) { SameStrips(d, past, e, next); }
    if StripsRight(e, next) { SameStrips(e, next, d, past); }
  }

  predicate Acknowledging(s: Step) {
    s.MoveReply? && s.moved.Acknowledged?
  }

  /** A settling answer that acknowledges nothing leaves rows and strips alone. */
  lemma RefusedStrips(d: Desk, past: Past, s: Step, at: nat)
    requires Answers(d, s, at) && !GoesOn(d, s, at) && !Acknowledging(s)
    ensures StripsRight(After(d, s), PastAfter(d, past, s)) <==> StripsRight(d, past)
  {
    if s.LoadReply? { LoadSettles(d, at, s.loaded); }
    EqualStrips(d, past, After(d, s), PastAfter(d, past, s));
  }

  /**
   * A dialog change during a move, then the move's answer. An acknowledgement puts the move's own strip
   * in place, unless it returns the card to where the move began; then, as after any other answer that
   * settles the move, what the dialog offered stands.
   */
  lemma UndoAfterDialogDuringMove(rows: map<string, Status>, steps: seq<Step>, at: nat, told: Status, s: Step)
    requires GuardedRun(Opened(rows), steps) && StripsRight(Run(Opened(rows), steps), PastOf(rows, steps))
    requires var d := Run(Opened(rows), steps); Answers(d, s, at) && !GoesOn(d, s, at)
    ensures var d, past := Run(Opened(rows), steps), PastOf(rows, steps);
            var c := d.calls[at];
            var dialog := DialogStatus(c.key, told);
            var mid, then_ := AfterDialog(d, c.key, told), PastAfter(d, past, dialog);
            && c.key in d.placed && c.key in past.trail
            && (StripsRight(After(mid, s), PastAfter(mid, then_, s)) <==>
                  if Acknowledging(s) then RightAfterBoth(d, past, c, told, s.moved.status) else Keeps(d, past, dialog))
  {
    var d, past := Run(Opened(rows), steps), PastOf(rows, steps);
    MovesStayConsistent(rows, steps);
    MovesRememberWhereTheyBegan(rows, steps);
    CallsStood(d, past, at);
    AnswerAfterDialog(d, past, at, told, s);
  }

  lemma AnswerAfterDialog(d: Desk, past: Past, at: nat, told: Status, s: Step)
    requires RowsFollow(d, past) && StripsRight(d, past) && CallStood(d, past, at)
    requires Answers(d, s, at) && !GoesOn(d, s, at)
    ensures var c := d.calls[at];
            var mid, then_ := AfterDialog(d, c.key, told), PastAfter(d, past, DialogStatus(c.key, told));
            StripsRight(After(mid, s), PastAfter(mid, then_, s)) <==>
              if Acknowledging(s) then RightAfterBoth(d, past, c, told, s.moved.status)
              else Keeps(d, past, DialogStatus(c.key, told))
  {
    var c := d.calls[at];
    if Acknowledging(s) {
      AcknowledgedAfterDialog(d, past, at, told, s.moved.status);
    } else {
      DialogStrips(d, past, c.key, told);
      RefusedStrips(AfterDialog(d, c.key, told), PastAfter(d, past, DialogStatus(c.key, told)), s, at);
    }
  }

  lemma PastSnoc(rows: map<string, Status>, steps: seq<Step>, s: Step)
    ensures PastOf(rows, steps + [s]) == PastAfter(Run(Opened(rows), steps), PastOf(rows, steps), s)
  {
    assert (steps + [s])[..|steps|] == steps;
  }

  lemma StartFields(d: Desk, past: Past, key: string, target: Column)
    requires key in d.rows && ColOf(d, key) != target
    ensures var s, e := StartMove(key, target, false, None), AfterStart(d, key, target, false, None);
            && PastAfter(d, past, s).trail == past.trail && e.rows == d.rows && key !in e.undo
            && key in e.placed && e.placed[key] == target
            && e.calls == d.calls + [Call(Loading, key, target, ColOf(d, key), false)]
  {
  }

  lemma RefusedFields(d: Desk, past: Past, at: nat, error: string)
    requires at < |d.calls| && d.calls[at].kind == Loading
    ensures var s, e := LoadReply(at, LoadFailed(error)), AfterLoad(d, at, LoadFailed(error));
            PastAfter(d, past, s).trail == past.trail && e.undo == d.undo && d.calls[at].key !in e.pending
  {
  }

  /** Desk and past after a move is begun, its ticket told otherwise in the dialog, and the move refused. */
  function RefusedMeanwhile(d: Desk, past: Past, key: string, target: Column, told: Status, error: string): (Desk, Past) {
    var start, tell := StartMove(key, target, false, None), DialogStatus(key, told);
    var fails := LoadReply(|d.calls|, LoadFailed(error));
    var d1, p1 := After(d, start), PastAfter(d, past, start);
    var d2, p2 := After(d1, tell), PastAfter(d1, p1, tell);
    (After(d2, fails), PastAfter(d2, p2, fails))
  }

  /** The strip then leads back to the column of the refused move. */
  lemma RefusedMeanwhileStrip(d: Desk, past: Past, key: string, target: Column, told: Status, error: string)
    requires key in d.rows && key in past.trail && ColOf(d, key) != target && ColumnOf(told) != target
    ensures var (e, next) := RefusedMeanwhile(d, past, key, target, told, error);
            && key !in e.pending && key in e.undo && e.undo[key] == Undo(target, ColumnOf(told))
            && key in next.trail && next.trail[key] == past.trail[key] + [told]
  {
    var start, tell := StartMove(key, target, false, None), DialogStatus(key, told);
    var d1, p1 := After(d, start), PastAfter(d, past, start);
    StartFields(d, past, key, target);
    DialogFields(d1, p1, key, told);
    var d2, p2 := After(d1, tell), PastAfter(d1, p1, tell);
    assert d2.calls[|d.calls|] == Call(Loading, key, target, ColOf(d, key), false);
    RefusedFields(d2, p2, |d.calls|, error);
  }

  lemma RefusedMeanwhileRun(
    rows: map<string, Status>, steps: seq<Step>, key: string, target: Column, told: Status, error: string)
    returns (more: seq<Step>)
    requires GuardedRun(Opened(rows), steps) && key !in Run(Opened(rows), steps).pending
    ensures |more| == |steps| + 3 && GuardedRun(Opened(rows), more)
    ensures (Run(Opened(rows), more), PastOf(rows, more))
         == RefusedMeanwhile(Run(Opened(rows), steps), PastOf(rows, steps), key, target, told, error)
  {
    var d := Run(Opened(rows), steps);
    var start, tell := StartMove(key, target, false, None), DialogStatus(key, told);
    var fails := LoadReply(|d.calls|, LoadFailed(error));
    RunSnoc(Opened(rows), steps, start);
    PastSnoc(rows, steps, start);
    RunSnoc(Opened(rows), steps + [start], tell);
    PastSnoc(rows, steps + [start], tell);
    RunSnoc(Opened(rows), steps + [start] + [tell], fails);
    PastSnoc(rows, steps + [start] + [tell], fails);
    more := steps + [start] + [tell] + [fails];
  }

  /**
   * From any guarded run: a settled card is moved to a column its ticket has never stood in, told
   * another in the dialog meanwhile, and the move is refused. The strip leads back to that column.
   */
  lemma UndoToWhereItNeverStood(
    rows: map<string, Status>, steps: seq<Step>, key: string, target: Column, told: Status, error: string)
    returns (more: seq<Step>)
    requires GuardedRun(Opened(rows), steps) && key in rows && key !in Run(Opened(rows), steps).pending
    requires key in PastOf(rows, steps).trail ==> !Stood(PastOf(rows, steps).trail[key], target)
    requires ColumnOf(told) != target
    ensures |more| == |steps| + 3 && GuardedRun(Opened(rows), more)
    ensures var d := Run(Opened(rows), more);
            && key !in d.pending && key in d.undo && d.undo[key] == Undo(target, ColumnOf(told))
            && !StripRight(d, PastOf(rows, more), key)
  {
    var d, past := Run(Opened(rows), steps), PastOf(rows, steps);
    StatusIsLastAcknowledged(rows, steps);
    MovesStayConsistent(rows, steps);
    var trail := past.trail[key];
    assert ColumnOf(trail[|trail| - 1]) == ColOf(d, key);
    RefusedMeanwhileStrip(d, past, key, target, told, error);
    more := RefusedMeanwhileRun(rows, steps, key, target, told, error);
    assert (trail + [told])[..|trail|] == trail;
  }
}
