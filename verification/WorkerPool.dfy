/**
 * Workers sharing one counter over a list of jobs. Nothing else runs between a worker's test of the
 * counter and its increment, so a request is one step; the workers' steps interleave in any order.
 */
module WorkerPool {
  import opened Options
  import opened Seqs

  datatype Worker = AtLoop | Awaiting(job: nat) | Stopped

  /** `asked` lists the requests made, in order. */
  datatype Pool<S, R> = Pool(
    states: seq<S>, next: nat, workers: seq<Worker>, answers: seq<Option<R>>, asked: seq<nat>)

  datatype Step<R> = Turn(w: nat) | Reply(w: nat, reply: R)

  function Start<S, R>(states: seq<S>, conc: nat): Pool<S, R> {
    Pool(states, 0, seq(conc, _ => AtLoop), seq(|states|, _ => None), [])
  }

  predicate Enabled<S, R>(p: Pool<S, R>, s: Step<R>) {
    && s.w < |p.workers|
    && match s
       case Turn(w) => p.workers[w].AtLoop?
       case Reply(w, _) => p.workers[w].Awaiting? && p.workers[w].job < |p.answers|
  }

  /** A turn takes the next job or stops; a reply stores the answer and returns to the loop. */
  function After<S, R>(p: Pool<S, R>, s: Step<R>): Pool<S, R>
    requires Enabled(p, s)
  {
    match s
    case Turn(w) =>
      if p.next < |p.states| then
        p.(workers := p.workers[w := Awaiting(p.next)], next := p.next + 1, asked := p.asked + [p.next])
      else p.(workers := p.workers[w := Stopped])
    case Reply(w, reply) =>
      p.(answers := p.answers[p.workers[w].job := Some(reply)], workers := p.workers[w := AtLoop])
  }

  /** Some interleaving leads from `p` to `q` in `|steps|` steps. */
  ghost predicate Leads<S, R>(p: Pool<S, R>, steps: seq<Step<R>>, q: Pool<S, R>)
    decreases |steps|
  {
    if steps == [] then p == q else Enabled(p, steps[0]) && Leads(After(p, steps[0]), steps[1..], q)
  }

  ghost predicate Claimed<S, R>(p: Pool<S, R>, job: nat) {
    exists w :: 0 <= w < |p.workers| && p.workers[w] == Awaiting(job)
  }

  /**
   * Jobs below the counter have each been asked once, in order, and are either answered or awaited by
   * exactly one worker; jobs above it are untouched; a worker stops only when none are left.
   */
  ghost predicate Sound<S, R>(p: Pool<S, R>) {
    && p.next <= |p.states| == |p.answers|
    && p.asked == seq(p.next, i => i)
    && (forall w :: 0 <= w < |p.workers| && p.workers[w].Awaiting? ==>
          p.workers[w].job < p.next && p.answers[p.workers[w].job].None?)
    && (forall v, w :: 0 <= v < w < |p.workers| && p.workers[v].Awaiting? ==> p.workers[v] != p.workers[w])
    && (forall i :: 0 <= i < p.next ==> p.answers[i].Some? || Claimed(p, i))
    && (forall i :: p.next <= i < |p.answers| ==> p.answers[i].None?)
    && (forall w :: 0 <= w < |p.workers| && p.workers[w].Stopped? ==> p.next == |p.states|)
  }

  lemma StartSound<S, R>(states: seq<S>, conc: nat)
    ensures Sound(Start<S, R>(states, conc))
  {
  }

  lemma StepSound<S, R>(p: Pool<S, R>, s: Step<R>)
    requires Sound(p) && Enabled(p, s)
    ensures Sound(After(p, s))
  {
    var q := After(p, s);
    forall i | 0 <= i < q.next ensures q.answers[i].Some? || Claimed(q, i) {
      if s.Turn? && i == p.next {
        assert q.workers[s.w] == Awaiting(i);
      } else if p.answers[i].None? {
        var v :| 0 <= v < |p.workers| && p.workers[v] == Awaiting(i);
        assert v == s.w || q.workers[v] == Awaiting(i);
      }
    }
    assert s.Turn? && p.next < |p.states| ==> q.asked == seq(q.next, i => i);
  }

  // ---- Conservation and termination ----

  function InFlight(workers: seq<Worker>): nat {
    if workers == [] then 0
    else InFlight(workers[..|workers| - 1]) + if workers[|workers| - 1].Awaiting? then 1 else 0
  }

  function Running(workers: seq<Worker>): nat {
    if workers == [] then 0
    else Running(workers[..|workers| - 1]) + if workers[|workers| - 1].Stopped? then 0 else 1
  }

  function Answered<R>(answers: seq<Option<R>>): nat {
    if answers == [] then 0
    else Answered(answers[..|answers| - 1]) + if answers[|answers| - 1].Some? then 1 else 0
  }

  lemma {:induction false} CountUpdate(workers: seq<Worker>, w: nat, x: Worker)
    requires w < |workers|
    ensures InFlight(workers[w := x])
         == InFlight(workers) - (if workers[w].Awaiting? then 1 else 0) + if x.Awaiting? then 1 else 0
    ensures Running(workers[w := x])
         == Running(workers) - (if workers[w].Stopped? then 0 else 1) + if x.Stopped? then 0 else 1
  {
    var n := |workers| - 1;
    if w == n {
      assert workers[w := x][..n] == workers[..n];
    } else {
      assert workers[w := x][..n] == workers[..n][w := x];
      CountUpdate(workers[..n], w, x);
    }
  }

  lemma {:induction false} AnsweredUpdate<R>(answers: seq<Option<R>>, i: nat, r: R)
    requires i < |answers|
    ensures Answered(answers[i := Some(r)]) == Answered(answers) + if answers[i].Some? then 0 else 1
  {
    var n := |answers| - 1;
    if i == n {
      assert answers[i := Some(r)][..n] == answers[..n];
    } else {
      assert answers[i := Some(r)][..n] == answers[..n][i := Some(r)];
      AnsweredUpdate(answers[..n], i, r);
    }
  }

  lemma {:induction false} CountBounds(workers: seq<Worker>)
    ensures InFlight(workers) <= Running(workers) <= |workers|
    ensures Running(workers) == 0 <==> forall w :: 0 <= w < |workers| ==> workers[w].Stopped?
  {
    if workers != [] {
      var n := |workers| - 1;
      CountBounds(workers[..n]);
      if Running(workers) == 0 {
        forall w | 0 <= w < |workers| ensures workers[w].Stopped? {
          if w < n { assert workers[..n][w].Stopped?; }
        }
      } else if Running(workers[..n]) != 0 {
        var w :| 0 <= w < n && !workers[..n][w].Stopped?;
        assert !workers[w].Stopped?;
      }
    }
  }

  /** Requests made are the answers stored plus the requests still in flight. */
  ghost predicate Conserved<S, R>(p: Pool<S, R>) {
    |p.asked| == Answered(p.answers) + InFlight(p.workers)
  }

  /** Steps still to come: a request and a reply for each job not yet asked, a reply for each in flight, a stop for each worker. */
  function StepsLeft<S, R>(p: Pool<S, R>): int {
    2 * (|p.states| - p.next) + InFlight(p.workers) + Running(p.workers)
  }

  lemma StepCounts<S, R>(p: Pool<S, R>, s: Step<R>)
    requires Sound(p) && Enabled(p, s) && Conserved(p)
    ensures Conserved(After(p, s)) && StepsLeft(After(p, s)) == StepsLeft(p) - 1
  {
    var q := After(p, s);
    CountUpdate(p.workers, s.w, q.workers[s.w]);
    if s.Reply? { AnsweredUpdate(p.answers, p.workers[s.w].job, s.reply); }
  }

  lemma {:induction false} StartCounts<S, R>(states: seq<S>, conc: nat)
    ensures Conserved(Start<S, R>(states, conc))
    ensures StepsLeft(Start<S, R>(states, conc)) == 2 * |states| + conc
  {
    AllAtLoop(Start<S, R>(states, conc).workers);
    NoneAnswered(Start<S, R>(states, conc).answers);
  }

  lemma {:induction false} AllAtLoop(workers: seq<Worker>)
    requires forall w :: 0 <= w < |workers| ==> workers[w].AtLoop?
    ensures InFlight(workers) == 0 && Running(workers) == |workers|
  {
    if workers != [] { AllAtLoop(workers[..|workers| - 1]); }
  }

  lemma {:induction false} NoneAnswered<R>(answers: seq<Option<R>>)
    requires forall i :: 0 <= i < |answers| ==> answers[i].None?
    ensures Answered(answers) == 0
  {
    if answers != [] { NoneAnswered(answers[..|answers| - 1]); }
  }

  // ---- Every run ----

  /** A reply is what the classifier says of the worker's job. */
  ghost predicate Honest<S, R>(p: Pool<S, R>, f: S -> R) {
    forall i :: 0 <= i < |p.answers| && i < |p.states| && p.answers[i].Some? ==> p.answers[i].value == f(p.states[i])
  }

  ghost predicate HonestReplies<S, R>(p: Pool<S, R>, steps: seq<Step<R>>, f: S -> R)
    decreases |steps|
  {
    steps == [] ||
      (Enabled(p, steps[0])
       && (steps[0].Reply? && p.workers[steps[0].w].job < |p.states| ==>
             steps[0].reply == f(p.states[p.workers[steps[0].w].job]))
       && HonestReplies(After(p, steps[0]), steps[1..], f))
  }

  lemma {:induction false} RunSound<S, R>(p: Pool<S, R>, steps: seq<Step<R>>, q: Pool<S, R>)
    requires Sound(p) && Conserved(p) && Leads(p, steps, q)
    ensures Sound(q) && Conserved(q) && StepsLeft(q) == StepsLeft(p) - |steps|
    ensures q.states == p.states && |q.workers| == |p.workers|
    decreases |steps|
  {
    if steps != [] {
      StepSound(p, steps[0]);
      StepCounts(p, steps[0]);
      RunSound(After(p, steps[0]), steps[1..], q);
    }
  }

  lemma {:induction false} RunHonest<S, R>(p: Pool<S, R>, steps: seq<Step<R>>, q: Pool<S, R>, f: S -> R)
    requires Leads(p, steps, q) && Honest(p, f) && HonestReplies(p, steps, f)
    ensures Honest(q, f) && q.states == p.states
    decreases |steps|
  {
    if steps != [] { RunHonest(After(p, steps[0]), steps[1..], q, f); }
  }

  ghost predicate Finished<S, R>(p: Pool<S, R>) {
    forall w :: 0 <= w < |p.workers| ==> p.workers[w].Stopped?
  }

  /**
   * At every moment of every interleaving each job below the counter has been asked exactly once, none
   * above it, and at most `conc` requests are in flight, the difference between asked and answered.
   */
  lemma EveryMoment<S, R>(states: seq<S>, conc: nat, steps: seq<Step<R>>, p: Pool<S, R>)
    requires Leads(Start<S, R>(states, conc), steps, p)
    ensures Sound(p) && p.asked == seq(p.next, i => i)
    ensures InFlight(p.workers) <= conc && p.next == Answered(p.answers) + InFlight(p.workers)
  {
    StartSound<S, R>(states, conc);
    StartCounts<S, R>(states, conc);
    RunSound(Start<S, R>(states, conc), steps, p);
    CountBounds(p.workers);
  }

  /** A run can go on unless every worker has stopped, which takes exactly two steps a job and one a worker. */
  lemma RunsEnd<S, R>(states: seq<S>, conc: nat, steps: seq<Step<R>>, p: Pool<S, R>, reply: R)
    requires Leads(Start<S, R>(states, conc), steps, p)
    ensures |steps| <= 2 * |states| + conc
    ensures !Finished(p) ==> exists s :: Enabled(p, s)
    ensures conc > 0 ==> (Finished(p) <==> |steps| == 2 * |states| + conc)
  {
    StartSound<S, R>(states, conc);
    StartCounts<S, R>(states, conc);
    RunSound(Start<S, R>(states, conc), steps, p);
    CountBounds(p.workers);
    if !Finished(p) {
      var w :| 0 <= w < |p.workers| && !p.workers[w].Stopped?;
      assert Enabled(p, if p.workers[w].AtLoop? then Turn(w) else Reply(w, reply));
    } else if conc > 0 {
      assert p.workers[0].Stopped?;
    }
  }

  /**
   * A finished run has an answer for every job exactly when there was a worker or nothing to do; with
   * a deterministic classifier those answers are the sequential map.
   */
  lemma FinishedRunIsMap<S, R>(states: seq<S>, conc: nat, steps: seq<Step<R>>, p: Pool<S, R>, f: S -> R)
    requires Leads(Start<S, R>(states, conc), steps, p) && Finished(p)
    requires HonestReplies(Start<S, R>(states, conc), steps, f)
    ensures p.answers == seq(|states|, i requires 0 <= i < |states| => Some(f(states[i])))
       <==> conc > 0 || states == []
  {
    EveryMoment(states, conc, steps, p);
    RunHonest(Start<S, R>(states, conc), steps, p, f);
    StartSound<S, R>(states, conc);
    StartCounts<S, R>(states, conc);
    RunSound(Start<S, R>(states, conc), steps, p);
    if conc > 0 {
      assert p.workers[0].Stopped?;
      forall i | 0 <= i < |states| ensures p.answers[i] == Some(f(states[i])) {
        assert !Claimed(p, i);
      }
    } else if states != [] {
      assert p.answers[0].None? by { NoWorkersNoStep(states, steps, p); }
    }
  }

  lemma NoWorkersNoStep<S, R>(states: seq<S>, steps: seq<Step<R>>, p: Pool<S, R>)
    requires Leads(Start<S, R>(states, 0), steps, p)
    ensures p == Start(states, 0)
  {
  }

  // ---- The pass itself ----

  /** One pass under any scheduler: whichever worker the event loop resumes next takes its step. */
  method Pass<S, R>(states: seq<S>, conc: nat, classify: S -> R) returns (answers: array<Option<R>>)
    ensures fresh(answers) && answers.Length == |states|
    ensures conc > 0 ==> forall i :: 0 <= i < |states| ==> answers[i] == Some(classify(states[i]))
    ensures conc == 0 ==> forall i :: 0 <= i < |states| ==> answers[i] == None
  {
    answers := new Option<R>[|states|](_ => None);
    var next := 0;
    var workers := seq(conc, _ => AtLoop);
    ghost var p := Start<S, R>(states, conc);
    StartSound<S, R>(states, conc);
    StartCounts<S, R>(states, conc);
    while exists w :: 0 <= w < |workers| && !workers[w].Stopped?
      invariant p.states == states && p.next == next && p.workers == workers && p.answers == answers[..]
      invariant |workers| == conc && Sound(p) && Conserved(p) && Honest(p, classify)
      invariant conc == 0 ==> next == 0
      decreases StepsLeft(p)
    {
      var w :| 0 <= w < |workers| && !workers[w].Stopped?;
      p := HonestStep(p, w, classify);
      if workers[w].AtLoop? {
        if next < |states| {
          workers := workers[w := Awaiting(next)];
          next := next + 1;
        } else {
          workers := workers[w := Stopped];
        }
      } else {
        answers[workers[w].job] := Some(classify(states[workers[w].job]));
        workers := workers[w := AtLoop];
      }
    }
    FinishedAnswers(p, classify);
    assert forall i :: 0 <= i < |states| ==> answers[i] == p.answers[i];
  }

  /** The running worker `w` takes its step, replies coming from the classifier. */
  ghost function StepOf<S, R>(p: Pool<S, R>, w: nat, f: S -> R): Step<R>
    requires Sound(p) && w < |p.workers| && !p.workers[w].Stopped?
  {
    if p.workers[w].AtLoop? then Turn(w) else Reply(w, f(p.states[p.workers[w].job]))
  }

  lemma HonestStep<S, R>(p: Pool<S, R>, w: nat, f: S -> R) returns (q: Pool<S, R>)
    requires Sound(p) && Conserved(p) && Honest(p, f) && w < |p.workers| && !p.workers[w].Stopped?
    ensures Enabled(p, StepOf(p, w, f)) && q == After(p, StepOf(p, w, f))
    ensures Sound(q) && Conserved(q) && Honest(q, f) && 0 <= StepsLeft(q) < StepsLeft(p)
  {
    var s := StepOf(p, w, f);
    StepSound(p, s);
    StepCounts(p, s);
    q := After(p, s);
  }

  lemma FinishedAnswers<S, R>(p: Pool<S, R>, f: S -> R)
    requires Sound(p) && Honest(p, f) && Finished(p)
    ensures |p.workers| > 0 ==> forall i :: 0 <= i < |p.states| ==> p.answers[i] == Some(f(p.states[i]))
    ensures |p.workers| == 0 && p.next == 0 ==> forall i :: 0 <= i < |p.states| ==> p.answers[i] == None
  {
    if |p.workers| > 0 {
      assert p.workers[0].Stopped?;
      forall i | 0 <= i < |p.states| ensures p.answers[i] == Some(f(p.states[i])) {
        assert !Claimed(p, i);
      }
    }
  }
}
