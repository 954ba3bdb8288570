/** The "Moved to X - Undo" strips: one pausable countdown per card over the browser's timeouts. */
module UndoStrips {
  import opened Board
  import opened Options

  // ---- A strip as the user sees it ----

  /** `unheld` is the time the strip has run while nothing held it. */
  datatype Strip = Gone | Showing(from: Column, to: Column, unheld: int, held: bool)

  datatype Event =
    | Offer(key: string, from: Column, to: Column)
    | Hold(key: string, held: bool)
    | Clear(key: string)
    | Expire(key: string)
    | Advance(ms: nat)

  /** A stopwatch per card: what each event does to one card's strip. */
  function After(s: Strip, k: string, e: Event): Strip {
    match e
    case Offer(key, from, to) => if key == k && from != to then Showing(from, to, 0, false) else s
    case Hold(key, held) => if key == k && s.Showing? then s.(held := held) else s
    case Clear(key) => if key == k then Gone else s
    case Expire(key) => if key == k then Gone else s
    case Advance(ms) => if s.Showing? && !s.held then s.(unheld := s.unheld + ms) else s
  }

  function Run(s: Strip, k: string, events: seq<Event>): Strip {
    if events == [] then s else After(Run(s, k, events[..|events| - 1]), k, events[|events| - 1])
  }

  predicate Offers(e: Event, k: string) {
    e.Offer? && e.key == k && e.from != e.to
  }

  predicate Ends(e: Event, k: string) {
    (e.Clear? || e.Expire?) && e.key == k
  }

  /** Whether the latest hold or release of the card since event `i` is a hold. */
  function HeldSince(events: seq<Event>, i: nat, k: string): bool {
    if |events| <= i then false
    else
      var e := events[|events| - 1];
      if e.Hold? && e.key == k then e.held else HeldSince(events[..|events| - 1], i, k)
  }

  /** Clock time since event `i` that passed while the card was not held. */
  function UnheldSince(events: seq<Event>, i: nat, k: string): nat {
    if |events| <= i then 0
    else
      var init, e := events[..|events| - 1], events[|events| - 1];
      UnheldSince(init, i, k) + if e.Advance? && !HeldSince(init, i, k) then e.ms else 0
  }

  /** Event `i` is the card's latest offer and nothing has ended that strip since. */
  ghost predicate LatestOffer(events: seq<Event>, i: nat, k: string) {
    && i < |events| && Offers(events[i], k)
    && forall j :: i < j < |events| ==> !Offers(events[j], k) && !Ends(events[j], k)
  }

  /** In any history a strip shows exactly when an offer is unended, with the un-held time since that offer. */
  lemma {:induction false} StripTellsUnheldTime(events: seq<Event>, k: string)
    ensures Run(Gone, k, events).Showing? <==> exists i: nat :: LatestOffer(events, i, k)
    ensures forall i: nat :: LatestOffer(events, i, k) ==>
              Run(Gone, k, events)
                == Showing(events[i].from, events[i].to, UnheldSince(events, i + 1, k), HeldSince(events, i + 1, k))
  {
    if events != [] {
      var n := |events| - 1;
      var init, e := events[..n], events[n];
      StripTellsUnheldTime(init, k);
      forall i: nat | LatestOffer(events, i, k)
        ensures i < n ==> LatestOffer(init, i, k)
        ensures Run(Gone, k, events)
             == Showing(events[i].from, events[i].to, UnheldSince(events, i + 1, k), HeldSince(events, i + 1, k))
      {
        if i < n {
          assert init[i] == events[i];
          assert forall j :: i < j < n ==> init[j] == events[j];
          assert LatestOffer(init, i, k);
          assert !Offers(events[n], k) && !Ends(events[n], k);
        }
      }
      if Run(Gone, k, events).Showing? {
        if Offers(e, k) {
          assert LatestOffer(events, n, k);
        } else {
          assert Run(Gone, k, init).Showing?;
          var i: nat :| LatestOffer(init, i, k);
          assert forall j :: i < j < |events| ==> j == n || events[j] == init[j];
          assert LatestOffer(events, i, k);
        }
      }
    }
  }

  // ---- The countdown itself ----

  datatype Move = Move(from: Column, to: Column)

  /** `handle` is absent while held; `left` is what remained when last armed or held. */
  datatype Timer = Timer(handle: Option<nat>, left: int, since: int)

  datatype Timeout = Timeout(key: string, due: int)

  function Max(a: int, b: int): int {
    if a < b then b else a
  }

  type Undoable = map<string, Move>
  type Timers = map<string, Timer>
  type Timeouts = map<nat, Timeout>

  /** The card's timer is armed: its timeout is live and due when what is left has passed. */
  predicate Armed(timers: Timers, timeouts: Timeouts, now: int, k: string) {
    && k in timers && timers[k].handle.Some? && timers[k].handle.value in timeouts
    && timeouts[timers[k].handle.value] == Timeout(k, timers[k].since + Max(timers[k].left, 0))
    && timers[k].since <= now
  }

  predicate Owned(timers: Timers, timeouts: Timeouts, h: nat) {
    h in timeouts && timeouts[h].key in timers && timers[timeouts[h].key].handle == Some(h)
  }

  /** Strips and timers match, and each live timeout belongs to exactly one armed timer. */
  ghost predicate Sound(undoable: Undoable, timers: Timers, timeouts: Timeouts, nextHandle: nat, now: int) {
    && undoable.Keys == timers.Keys
    && (forall k :: k in timers && timers[k].handle.Some? ==> Armed(timers, timeouts, now, k))
    && (forall h :: h in timeouts ==> h < nextHandle && Owned(timers, timeouts, h))
  }

  /** The live timeouts less the card's own: `clearTimeout(timers.current[key]?.handle)`. */
  function Without(timers: Timers, timeouts: Timeouts, key: string): Timeouts {
    if key in timers && timers[key].handle.Some? then timeouts - {timers[key].handle.value} else timeouts
  }

  lemma WithoutOwn(undoable: Undoable, timers: Timers, timeouts: Timeouts, nextHandle: nat, now: int, key: string)
    requires Sound(undoable, timers, timeouts, nextHandle, now)
    ensures var rest := Without(timers, timeouts, key);
            && (forall h :: h in rest ==> timeouts[h].key != key)
            && forall k :: k in timers && k != key && timers[k].handle.Some? ==> Armed(timers, rest, now, k)
  {
    var rest := Without(timers, timeouts, key);
    forall h | h in rest ensures timeouts[h].key != key { assert Owned(timers, timeouts, h); }
    forall k | k in timers && k != key && timers[k].handle.Some? ensures Armed(timers, rest, now, k) {
      assert Armed(timers, timeouts, now, k);
    }
  }

  lemma ClearedSound(undoable: Undoable, timers: Timers, timeouts: Timeouts, nextHandle: nat, now: int, key: string)
    requires Sound(undoable, timers, timeouts, nextHandle, now)
    ensures Sound(undoable - {key}, timers - {key}, Without(timers, timeouts, key), nextHandle, now)
  {
    var rest := Without(timers, timeouts, key);
    WithoutOwn(undoable, timers, timeouts, nextHandle, now, key);
    forall h | h in rest ensures h < nextHandle && Owned(timers - {key}, rest, h) { assert Owned(timers, timeouts, h); }
    forall k | k in timers - {key} && timers[k].handle.Some? ensures Armed(timers - {key}, rest, now, k) {
      assert Armed(timers, rest, now, k);
    }
  }

  lemma HaltedSound(
    undoable: Undoable, timers: Timers, timeouts: Timeouts, nextHandle: nat, now: int, key: string, move: Move, left: int,
    since: int)
    requires Sound(undoable, timers, timeouts, nextHandle, now)
    ensures Sound(undoable[key := move], timers[key := Timer(None, left, since)], Without(timers, timeouts, key),
                  nextHandle, now)
  {
    var rest, halted := Without(timers, timeouts, key), timers[key := Timer(None, left, since)];
    WithoutOwn(undoable, timers, timeouts, nextHandle, now, key);
    forall h | h in rest ensures h < nextHandle && Owned(halted, rest, h) { assert Owned(timers, timeouts, h); }
    forall k | k in halted && halted[k].handle.Some? ensures Armed(halted, rest, now, k) {
      assert Armed(timers, rest, now, k);
    }
  }

  lemma ArmedSound(undoable: Undoable, timers: Timers, timeouts: Timeouts, nextHandle: nat, now: int, key: string)
    requires Sound(undoable, timers, timeouts, nextHandle, now) && key in timers && timers[key].handle.None?
    ensures Sound(undoable, timers[key := timers[key].(since := now, handle := Some(nextHandle))],
                  timeouts[nextHandle := Timeout(key, now + Max(timers[key].left, 0))], nextHandle + 1, now)
  {
    var armed := timers[key := timers[key].(since := now, handle := Some(nextHandle))];
    var more := timeouts[nextHandle := Timeout(key, now + Max(timers[key].left, 0))];
    forall h | h in more ensures h < nextHandle + 1 && Owned(armed, more, h) {
      if h != nextHandle { assert Owned(timers, timeouts, h); }
    }
    forall k | k in armed && armed[k].handle.Some? ensures Armed(armed, more, now, k) {
      if k != key { assert Armed(timers, timeouts, now, k) && Owned(timers, timeouts, timers[k].handle.value); }
    }
  }

  /** What a card shows: the time left is the countdown less the un-held time. */
  function Seen(undoable: Undoable, timers: Timers, ms: int, now: int, k: string): Strip {
    if k !in timers || k !in undoable then Gone
    else
      var t := timers[k];
      Showing(undoable[k].from, undoable[k].to,
              ms - t.left + if t.handle.Some? then now - t.since else 0, t.handle.None?)
  }

  class Strips {
    const ms: int
    var undoable: Undoable
    var timers: Timers
    // The browser: its clock, its live timeouts and the next handle it gives out.
    var now: int
    var timeouts: Timeouts
    var nextHandle: nat

    ghost predicate Valid()
      reads this
    {
      Sound(undoable, timers, timeouts, nextHandle, now)
    }

    ghost function View(k: string): Strip
      reads this
    {
      Seen(undoable, timers, ms, now, k)
    }

    /** No timeout is overdue: the browser fires each one at its instant. */
    ghost predicate OnTime()
      reads this
    {
      && (forall h :: h in timeouts ==> now <= timeouts[h].due)
      && (forall k :: k in timers ==> 0 <= timers[k].left <= ms)
    }

    constructor (ms: int)
      ensures Valid() && OnTime() && this.ms == ms && forall k :: View(k) == Gone
    {
      this.ms := ms;
      undoable, timers, now, timeouts, nextHandle := map[], map[], 0, map[], 1;
    }

    method SetTimeout(key: string, delay: int) returns (handle: nat)
      modifies this`timeouts, this`nextHandle
      ensures handle == old(nextHandle) && nextHandle == handle + 1
      ensures timeouts == old(timeouts)[handle := Timeout(key, now + Max(delay, 0))]
    {
      handle := nextHandle;
      timeouts := timeouts[handle := Timeout(key, now + Max(delay, 0))];
      nextHandle := nextHandle + 1;
    }

    /** Harmless when the card has no timeout. */
    method ClearTimeoutOf(key: string)
      modifies this`timeouts
      ensures timeouts == Without(timers, old(timeouts), key)
    {
      if key in timers && timers[key].handle.Some? {
        timeouts := timeouts - {timers[key].handle.value};
      }
    }

    method ClearStrip(key: string)
      requires Valid()
      modifies this`undoable, this`timers, this`timeouts
      ensures Valid() && (old(OnTime()) ==> OnTime())
      ensures forall k :: View(k) == After(old(View(k)), k, Clear(key))
    {
      ClearedSound(undoable, timers, timeouts, nextHandle, now, key);
      ClearTimeoutOf(key);
      timers := timers - {key};
      undoable := undoable - {key};
    }

    /** (Re)starts the countdown of a card whose timer is not running. */
    method Arm(key: string)
      requires Valid() && key in timers && timers[key].handle.None?
      modifies this`timers, this`timeouts, this`nextHandle
      ensures Valid() && (old(OnTime()) ==> OnTime())
      ensures View(key) == After(old(View(key)), key, Hold(key, false))
      ensures forall k :: k != key ==> View(k) == old(View(k))
    {
      ArmedSound(undoable, timers, timeouts, nextHandle, now, key);
      var handle := SetTimeout(key, timers[key].left);
      timers := timers[key := timers[key].(since := now, handle := Some(handle))];
    }

    /** Replaces whatever the card showed by a fresh strip, not yet running. */
    method PutStrip(key: string, from: Column, to: Column)
      requires Valid()
      modifies this`undoable, this`timers, this`timeouts
      ensures Valid() && (old(OnTime()) && 0 <= ms ==> OnTime())
      ensures key in timers && timers[key] == Timer(None, ms, 0)
      ensures View(key) == Showing(from, to, 0, true)
      ensures forall k :: k != key ==> View(k) == old(View(k))
    {
      HaltedSound(undoable, timers, timeouts, nextHandle, now, key, Move(from, to), ms, 0);
      ClearTimeoutOf(key);
      undoable := undoable[key := Move(from, to)];
      timers := timers[key := Timer(None, ms, 0)];
    }

    method OfferUndo(key: string, from: Column, to: Column)
      requires Valid()
      modifies this`undoable, this`timers, this`timeouts, this`nextHandle
      ensures Valid() && (old(OnTime()) && 0 <= ms ==> OnTime())
      ensures forall k :: View(k) == After(old(View(k)), k, Offer(key, from, to))
    {
      if from == to { return; }
      PutStrip(key, from, to);
      Arm(key);
    }

    /** Stops a running countdown, keeping what is left of it. */
    method Freeze(key: string)
      requires Valid() && key in timers && timers[key].handle.Some?
      modifies this`timers, this`timeouts
      ensures Valid() && (old(OnTime()) ==> OnTime())
      ensures View(key) == After(old(View(key)), key, Hold(key, true))
      ensures forall k :: k != key ==> View(k) == old(View(k))
    {
      assert Armed(timers, timeouts, now, key);
      var t := timers[key];
      HaltedSound(undoable, timers, timeouts, nextHandle, now, key, undoable[key], t.left - (now - t.since), t.since);
      assert undoable[key := undoable[key]] == undoable;
      ClearTimeoutOf(key);
      timers := timers[key := t.(handle := None, left := t.left - (now - t.since))];
    }

    /** Stops or restarts the card's countdown; nothing to do when it already stands or runs. */
    method HoldUndo(key: string, held: bool)
      requires Valid()
      modifies this`timers, this`timeouts, this`nextHandle
      ensures Valid() && (old(OnTime()) ==> OnTime())
      ensures forall k :: View(k) == After(old(View(k)), k, Hold(key, held))
    {
      if key !in timers { return; }
      if held && timers[key].handle.Some? {
        Freeze(key);
      } else if !held && timers[key].handle.None? {
        Arm(key);
      }
    }

    /** The clock moves; timeouts stay queued until the browser fires them. */
    method Tick(d: nat)
      requires Valid()
      modifies this`now
      ensures Valid() && now == old(now) + d
      ensures old(OnTime()) && (forall h :: h in timeouts ==> now <= timeouts[h].due) ==> OnTime()
      ensures forall k :: View(k) == After(old(View(k)), k, Advance(d))
    {
      now := now + d;
    }

    /**
     * The browser runs a due timeout, which clears its card. By then the strip has run at least `ms`
     * un-held, and exactly `ms` when the browser is on time.
     */
    method Fire(handle: nat)
      requires Valid() && handle in timeouts && timeouts[handle].due <= now
      modifies this`undoable, this`timers, this`timeouts
      ensures Valid() && (old(OnTime()) ==> OnTime())
      ensures var was := old(View(timeouts[handle].key));
              was.Showing? && !was.held && was.unheld >= ms && (old(OnTime()) ==> was.unheld == ms)
      ensures forall k :: View(k) == After(old(View(k)), k, Expire(old(timeouts[handle].key)))
    {
      assert Owned(timers, timeouts, handle);
      var key := timeouts[handle].key;
      var t := timers[key];
      assert Armed(timers, timeouts, now, key);
      HaltedSound(undoable, timers, timeouts, nextHandle, now, key, undoable[key], t.left, t.since);
      assert undoable[key := undoable[key]] == undoable;
      timeouts := timeouts - {handle};
      timers := timers[key := t.(handle := None)];
      ClearStrip(key);
    }

    /** Whether the browser could run the card's timeout now. */
    predicate Due(key: string)
      requires Valid()
      reads this
    {
      && key in timers && timers[key].handle.Some?
      && (assert Armed(timers, timeouts, now, key); timeouts[timers[key].handle.value].due <= now)
    }

    /**
     * Any run of events, up to an expiry the browser would not yet perform. Every card shows what its
     * stopwatch shows; `punctual` tells whether no tick ran past a timeout.
     */
    method Replay(events: seq<Event>) returns (done: nat, punctual: bool)
      requires Valid()
      modifies this
      ensures Valid() && done <= |events|
      ensures done < |events| ==> events[done].Expire? && !Due(events[done].key)
      ensures forall k :: View(k) == Run(old(View(k)), k, events[..done])
      ensures punctual && old(OnTime()) && 0 <= ms ==> OnTime()
    {
      done, punctual := 0, true;
      while done < |events|
        invariant Valid() && done <= |events|
        invariant forall k :: View(k) == Run(old(View(k)), k, events[..done])
        invariant punctual && old(OnTime()) && 0 <= ms ==> OnTime()
      {
        var e := events[done];
        match e {
          case Offer(key, from, to) => OfferUndo(key, from, to);
          case Hold(key, held) => HoldUndo(key, held);
          case Clear(key) => ClearStrip(key);
          case Advance(d) =>
            Tick(d);
            punctual := punctual && forall h :: h in timeouts ==> now <= timeouts[h].due;
          case Expire(key) =>
            if !Due(key) { return; }
            assert Armed(timers, timeouts, now, key);
            Fire(timers[key].handle.value);
        }
        RunSnoc(events, done);
        done := done + 1;
      }
    }
  }

  lemma RunSnoc(events: seq<Event>, n: nat)
    requires n < |events|
    ensures forall s, k :: Run(s, k, events[..n + 1]) == After(Run(s, k, events[..n]), k, events[n])
  {
    assert events[..n + 1][..n] == events[..n];
  }

  /** While timeouts fire on time no strip outlives its `ms`, and one that has used them up is due now. */
  lemma StripLastsItsTime(u: Strips, k: string)
    requires u.Valid() && u.OnTime() && u.View(k).Showing?
    ensures 0 <= u.View(k).unheld <= u.ms
    ensures u.View(k).unheld == u.ms && !u.View(k).held ==>
              exists h :: h in u.timeouts && u.timeouts[h] == Timeout(k, u.now)
    ensures !u.View(k).held ==>
              exists h :: h in u.timeouts && u.timeouts[h] == Timeout(k, u.now + (u.ms - u.View(k).unheld))
  {
    if u.timers[k].handle.Some? {
      assert Armed(u.timers, u.timeouts, u.now, k);
      var h := u.timers[k].handle.value;
      assert u.timeouts[h].key == k;
    }
  }

  // ---- When a card holds its strip ----

  /** A mounted card: whether it is hovered or focused, and what its strip shows. */
  datatype Card = Card(hover: bool, focus: bool, strip: Strip)

  /** `Remounts`: the card is drawn anew, in another column or after being filtered out. */
  datatype CardEvent =
    | Hovers(on: bool)
    | Focuses(on: bool)
    | Offered(from: Column, to: Column)
    | Ended
    | Elapsed(ms: nat)
    | Remounts

  predicate Pointed(c: Card) {
    c.hover || c.focus
  }

  function Flagged(c: Card, e: CardEvent): Card {
    match e
    case Hovers(on) => c.(hover := on)
    case Focuses(on) => c.(focus := on)
    case Remounts => c.(hover := false, focus := false)
    case _ => c
  }

  /** What the card passes on: a flag change goes through while a strip shows, and a strip that appears is held. */
  function PassedOn(c: Card, k: string, e: CardEvent): seq<Event> {
    match e
    case Offered(from, to) =>
      [Offer(k, from, to)] + if from != to && c.strip.Gone? && Pointed(c) then [Hold(k, true)] else []
    case Ended => [Clear(k)]
    case Elapsed(ms) => [Advance(ms)]
    case Remounts => []
    case _ => if c.strip.Showing? then [Hold(k, Pointed(Flagged(c, e)))] else []
  }

  function CardAfter(c: Card, k: string, e: CardEvent): Card {
    Flagged(c, e).(strip := Run(c.strip, k, PassedOn(c, k, e)))
  }

  function CardRun(k: string, events: seq<CardEvent>): Card {
    if events == [] then Card(false, false, Gone)
    else CardAfter(CardRun(k, events[..|events| - 1]), k, events[|events| - 1])
  }

  /** Event `i` turns the card's hover on, and nothing has changed it or drawn the card anew since. */
  ghost predicate HoveredSince(events: seq<CardEvent>, i: nat) {
    && i < |events| && events[i] == Hovers(true)
    && forall j :: i < j < |events| ==> !events[j].Hovers? && !events[j].Remounts?
  }

  ghost predicate FocusedSince(events: seq<CardEvent>, i: nat) {
    && i < |events| && events[i] == Focuses(true)
    && forall j :: i < j < |events| ==> !events[j].Focuses? && !events[j].Remounts?
  }

  /** A card counts as hovered, or focused, by the latest such event since it was drawn. */
  lemma {:induction false} FlagsFollowEvents(k: string, events: seq<CardEvent>)
    ensures CardRun(k, events).hover <==> exists i :: HoveredSince(events, i)
    ensures CardRun(k, events).focus <==> exists i :: FocusedSince(events, i)
  {
    if events != [] {
      var n := |events| - 1;
      FlagsFollowEvents(k, events[..n]);
      assert HoveredSince(events, n) <==> events[n] == Hovers(true);
      assert FocusedSince(events, n) <==> events[n] == Focuses(true);
      if i: nat :| HoveredSince(events, i) { if i < n { SinceSnoc(events, i); } }
      if i: nat :| FocusedSince(events, i) { if i < n { SinceSnoc(events, i); } }
      if i: nat :| HoveredSince(events[..n], i) { SinceSnoc(events, i); }
      if i: nat :| FocusedSince(events[..n], i) { SinceSnoc(events, i); }
    }
  }

  lemma SinceSnoc(events: seq<CardEvent>, i: nat)
    requires i < |events| - 1
    ensures var n := |events| - 1;
            && (HoveredSince(events, i) <==>
                  HoveredSince(events[..n], i) && !events[n].Hovers? && !events[n].Remounts?)
            && (FocusedSince(events, i) <==>
                  FocusedSince(events[..n], i) && !events[n].Focuses? && !events[n].Remounts?)
  {
    var n := |events| - 1;
    assert events[..n][i] == events[i];
    assert forall j :: i < j < n ==> events[..n][j] == events[j];
  }

  /** Everything a card passes on in a run. */
  function AllPassedOn(k: string, events: seq<CardEvent>): seq<Event> {
    if events == [] then []
    else
      var init := events[..|events| - 1];
      AllPassedOn(k, init) + PassedOn(CardRun(k, init), k, events[|events| - 1])
  }

  lemma {:induction false} RunConcat(s: Strip, k: string, a: seq<Event>, b: seq<Event>)
    ensures Run(s, k, a + b) == Run(Run(s, k, a), k, b)
  {
    if b == [] {
      assert a + b == a;
    } else {
      assert (a + b)[..|a + b| - 1] == a + b[..|b| - 1];
      RunConcat(s, k, a, b[..|b| - 1]);
    }
  }

  /** The card's strip is the countdown's, driven by what the card passed on. */
  lemma {:induction false} CardShowsItsStrip(k: string, events: seq<CardEvent>)
    ensures CardRun(k, events).strip == Run(Gone, k, AllPassedOn(k, events))
  {
    if events != [] {
      var init := events[..|events| - 1];
      CardShowsItsStrip(k, init);
      RunConcat(Gone, k, AllPassedOn(k, init), PassedOn(CardRun(k, init), k, events[|events| - 1]));
    }
  }

  /** The events that are the run's own doing, whatever is held. */
  function OwnEvents(k: string, events: seq<CardEvent>): seq<Event> {
    if events == [] then []
    else
      OwnEvents(k, events[..|events| - 1])
      + match events[|events| - 1]
        case Offered(from, to) => [Offer(k, from, to)]
        case Ended => [Clear(k)]
        case Elapsed(ms) => [Advance(ms)]
        case _ => []
  }

  function WithoutHolds(events: seq<Event>): seq<Event> {
    if events == [] then []
    else
      var last := events[|events| - 1];
      WithoutHolds(events[..|events| - 1]) + if last.Hold? then [] else [last]
  }

  lemma {:induction false} WithoutHoldsConcat(a: seq<Event>, b: seq<Event>)
    ensures WithoutHolds(a + b) == WithoutHolds(a) + WithoutHolds(b)
  {
    if b == [] {
      assert a + b == a;
    } else {
      assert (a + b)[..|a + b| - 1] == a + b[..|b| - 1];
      WithoutHoldsConcat(a, b[..|b| - 1]);
    }
  }

  lemma PassedOnOwn(c: Card, k: string, e: CardEvent)
    ensures WithoutHolds(PassedOn(c, k, e)) == match e
              case Offered(from, to) => [Offer(k, from, to)]
              case Ended => [Clear(k)]
              case Elapsed(ms) => [Advance(ms)]
              case _ => []
  {
    var passed := PassedOn(c, k, e);
    if passed != [] { WithoutHoldsShort(passed[0], Hold(k, true)); }
    if |passed| == 1 { assert passed == [passed[0]]; }
  }

  lemma WithoutHoldsShort(a: Event, b: Event)
    ensures WithoutHolds([a]) == if a.Hold? then [] else [a]
    ensures WithoutHolds([a] + [b]) == WithoutHolds([a]) + WithoutHolds([b])
  {
    assert [a][..0] == [] && ([a] + [b])[..1] == [a] && [b][..0] == [];
  }

  /** Holds aside, a card passes on the run's own offers, ends and elapsed time, in their order. */
  lemma {:induction false} PassesOnTheRun(k: string, events: seq<CardEvent>)
    ensures WithoutHolds(AllPassedOn(k, events)) == OwnEvents(k, events)
  {
    if events != [] {
      var n := |events| - 1;
      var c := CardRun(k, events[..n]);
      PassesOnTheRun(k, events[..n]);
      WithoutHoldsConcat(AllPassedOn(k, events[..n]), PassedOn(c, k, events[n]));
      PassedOnOwn(c, k, events[n]);
    }
  }

  /** A strip that shows is held exactly while its card is hovered or focused. */
  predicate HeldRight(c: Card) {
    c.strip.Showing? ==> (c.strip.held <==> c.hover || c.focus)
  }

  /** Under a pointed card, a strip is replaced by another or the card is drawn anew. */
  predicate Slips(c: Card, e: CardEvent) {
    c.strip.Showing? && (c.hover || c.focus) && (e.Remounts? || (e.Offered? && e.from != e.to))
  }

  ghost predicate AlwaysHeldRight(k: string, events: seq<CardEvent>) {
    HeldRight(CardRun(k, events)) && (events != [] ==> AlwaysHeldRight(k, events[..|events| - 1]))
  }

  ghost predicate NeverSlips(k: string, events: seq<CardEvent>) {
    events != [] ==>
      NeverSlips(k, events[..|events| - 1]) && !Slips(CardRun(k, events[..|events| - 1]), events[|events| - 1])
  }

  lemma RunShort(s: Strip, k: string, a: Event, b: Event)
    ensures Run(s, k, []) == s
    ensures Run(s, k, [a]) == After(s, k, a)
    ensures Run(s, k, [a] + [b]) == After(After(s, k, a), k, b)
  {
    assert [a][..0] == [] && ([a] + [b])[..1] == [a];
  }

  /** A rightly held strip stays so unless the event slips. */
  lemma StepHeldRight(c: Card, k: string, e: CardEvent)
    requires HeldRight(c)
    ensures HeldRight(CardAfter(c, k, e)) <==> !Slips(c, e)
  {
    var passed := PassedOn(c, k, e);
    RunShort(c.strip, k, Clear(k), Clear(k));
    if passed != [] { RunShort(c.strip, k, passed[0], Hold(k, true)); }
    if e.Offered? && |passed| == 1 { assert passed == [passed[0]]; }
  }

  /**
   * Over a whole run, a card's strip is held exactly while the card is hovered or focused if and only
   * if no strip was replaced, and no card drawn anew, under a pointed card with its strip showing.
   */
  lemma {:induction false} HoldFollowsPointer(k: string, events: seq<CardEvent>)
    ensures AlwaysHeldRight(k, events) <==> NeverSlips(k, events)
  {
    if events != [] {
      var init := events[..|events| - 1];
      HoldFollowsPointer(k, init);
      if NeverSlips(k, init) { StepHeldRight(CardRun(k, init), k, events[|events| - 1]); }
    }
  }
}
