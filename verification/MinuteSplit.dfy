/** Splitting a block's minutes between contracted support hours and the rest. */
module MinuteSplit {

  /** Contracted hours of every day, as minutes past midnight. */
  const WINDOWS: seq<(int, int)> := [(8 * 60, 10 * 60), (13 * 60 + 45, 14 * 60 + 35)]

  const DAY := 1440

  predicate Contracted(m: int) {
    exists i :: 0 <= i < |WINDOWS| && WINDOWS[i].0 <= m % DAY < WINDOWS[i].1
  }

  /** Contracted minutes of an interval, counted one by one. */
  function Count(start: int, end: int): nat
    decreases end - start
  {
    if end <= start then 0 else Count(start, end - 1) + if Contracted(end - 1) then 1 else 0
  }

  function Clip(x: int, top: int): int {
    if x < 0 then 0 else if x > top then top else x
  }

  /** Contracted minutes before minute `t`, counted from midnight zero: 170 a day, then the part of today. */
  function UpTo(t: int): int {
    170 * (t / DAY) + Clip(t % DAY - 480, 120) + Clip(t % DAY - 825, 50)
  }

  /** Walks the block minute by minute; timestamps are seconds and may lie before the epoch. */
  method Split(startedAt: int, endedAt: int) returns (sj: int, ap: int)
    ensures sj == Count(startedAt / 60, endedAt / 60)
    ensures startedAt <= endedAt ==> sj + ap == endedAt / 60 - startedAt / 60
    ensures startedAt <= endedAt ==> sj == UpTo(endedAt / 60) - UpTo(startedAt / 60)
    ensures endedAt <= startedAt ==> sj == ap == 0
  {
    var start, end := startedAt / 60, endedAt / 60;
    sj, ap := 0, 0;
    var m := start;
    while m < end
      invariant start <= end ==> start <= m <= end
      invariant end < start ==> m == start
      invariant sj == Count(start, m) && sj + ap == m - start
    {
      if Contracted(m) { sj := sj + 1; } else { ap := ap + 1; }
      m := m + 1;
    }
    if start <= end { CountClosed(start, end); }
  }

  lemma ContractedWindows(m: int)
    ensures Contracted(m) <==> 480 <= m % 1440 < 600 || 825 <= m % 1440 < 875
  {
    assert WINDOWS[0] == (480, 600) && WINDOWS[1] == (825, 875);
  }

  lemma UpToStep(t: int)
    ensures UpTo(t + 1) == UpTo(t) + if Contracted(t) then 1 else 0
  {
    ContractedWindows(t);
    if t % DAY == DAY - 1 {
      assert (t + 1) / DAY == t / DAY + 1 && (t + 1) % DAY == 0;
    } else {
      assert (t + 1) / DAY == t / DAY && (t + 1) % DAY == t % DAY + 1;
    }
  }

  /** The count has a closed form in which every whole day contributes 170 minutes. */
  lemma {:induction false} CountClosed(start: int, end: int)
    requires start <= end
    ensures Count(start, end) == UpTo(end) - UpTo(start)
    decreases end - start
  {
    if start < end {
      CountClosed(start, end - 1);
      UpToStep(end - 1);
    }
  }

  /** The contracted share is additive over any cut and unchanged by moving the interval whole days. */
  lemma CutsAndShifts(start: int, cut: int, end: int, days: int)
    requires start <= cut <= end
    ensures Count(start, cut) + Count(cut, end) == Count(start, end)
    ensures Count(start + days * 1440, end + days * 1440) == Count(start, end)
    ensures Count(start, start + 1440) == 170
  {
    CountClosed(start, cut);
    CountClosed(cut, end);
    CountClosed(start, end);
    CountClosed(start + days * DAY, end + days * DAY);
    CountClosed(start, start + DAY);
    UpToShift(start, days);
    UpToShift(end, days);
    UpToShift(start, 1);
  }

  lemma UpToShift(t: int, days: int)
    ensures UpTo(t + days * DAY) == UpTo(t) + 170 * days
  {
    assert (t + days * DAY) / DAY == t / DAY + days && (t + days * DAY) % DAY == t % DAY;
  }

  // ---- Blocks inside a window ----

  datatype Span = Span(start: int, end: int)

  function Min(a: int, b: int): int {
    if a < b then a else b
  }

  function Max(a: int, b: int): int {
    if a < b then b else a
  }

  /** Instants from `lo` up to `hi` that a span and a window share, counted one by one. */
  function Shared(span: Span, window: Span, lo: int, hi: int): nat
    decreases hi - lo
  {
    if hi <= lo then 0
    else
      Shared(span, window, lo, hi - 1)
      + if span.start <= hi - 1 < span.end && window.start <= hi - 1 < window.end then 1 else 0
  }

  /** What the blocks share with the window; one that ends before it starts shares nothing. */
  function SharedByAll(spans: seq<Span>, window: Span): nat {
    if spans == [] then 0
    else
      SharedByAll(spans[..|spans| - 1], window)
      + Shared(spans[|spans| - 1], window, window.start, window.end)
  }

  /** A block that ends before it starts, with both ends inside the window. */
  predicate BackwardsInside(span: Span, window: Span) {
    span.end < span.start && window.start < span.end && span.start < window.end
  }

  /** Instants a backwards block takes away: those from its end up to its start. */
  function TakenByAll(spans: seq<Span>, window: Span): (taken: nat)
    ensures taken == 0 <==> forall b :: b in spans ==> !BackwardsInside(b, window)
  {
    if spans == [] then 0
    else
      var init, last := spans[..|spans| - 1], spans[|spans| - 1];
      assert spans == init + [last];
      TakenByAll(init, window) + if BackwardsInside(last, window) then last.start - last.end else 0
  }

  /**
   * Total time of the blocks clamped to the window: the time they share with it, less what blocks
   * running backwards inside it take away.
   */
  method OverlapSeconds(spans: seq<Span>, window: Span) returns (total: int)
    requires window.start <= window.end
    ensures total == SharedByAll(spans, window) - TakenByAll(spans, window)
    ensures total == SharedByAll(spans, window) <==> forall b :: b in spans ==> !BackwardsInside(b, window)
  {
    total := 0;
    for n := 0 to |spans|
      invariant total == SharedByAll(spans[..n], window) - TakenByAll(spans[..n], window)
    {
      assert spans[..n + 1][..n] == spans[..n];
      SharedClosed(spans[n], window, window.start, window.end);
      if spans[n].start < window.end && spans[n].end > window.start {
        total := total + (Min(spans[n].end, window.end) - Max(spans[n].start, window.start));
      }
    }
    assert spans[..|spans|] == spans;
  }

  lemma {:induction false} SharedClosed(span: Span, window: Span, lo: int, hi: int)
    ensures Shared(span, window, lo, hi)
         == Max(0, Min(Min(span.end, window.end), hi) - Max(Max(span.start, window.start), lo))
    decreases hi - lo
  {
    if lo < hi { SharedClosed(span, window, lo, hi - 1); }
  }
}
