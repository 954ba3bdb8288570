/** The blocks a block can be merged with: its live neighbours on the day. */
module BlockMenu {
  import opened Options
  import opened Sorting

  /** `locked` when synced or exported, `ignored` when set aside. */
  datatype Block = Block(id: int, day: string, start: int, end: int, ignored: bool, locked: bool)

  /** Start time, ties broken by id. */
  function StartThenId(): Block -> Rank {
    (b: Block) => Rank(b.start, b.id)
  }

  /** The comparator: by start, ties by id. */
  function Order(a: Block, b: Block): int {
    if a.start != b.start then a.start - b.start else a.id - b.id
  }

  function Others(block: Block, blocks: seq<Block>): seq<Block> {
    if blocks == [] then []
    else
      var o := blocks[|blocks| - 1];
      Others(block, blocks[..|blocks| - 1])
      + if o.id != block.id && o.day == block.day && !o.ignored then [o] else []
  }

  /** `filter((o) => order(o, block) < 0).at(-1)`. */
  function LastBefore(s: seq<Block>, block: Block): Option<Block> {
    if s == [] then None
    else if Order(s[|s| - 1], block) < 0 then Some(s[|s| - 1])
    else LastBefore(s[..|s| - 1], block)
  }

  /** `find((o) => order(o, block) > 0)`. */
  function FirstAfter(s: seq<Block>, block: Block): Option<Block> {
    if s == [] then None
    else if Order(s[0], block) > 0 then Some(s[0])
    else FirstAfter(s[1..], block)
  }

  function Prev(block: Block, blocks: seq<Block>): Option<Block> {
    LastBefore(SortBy(Others(block, blocks), StartThenId()), block)
  }

  function Next(block: Block, blocks: seq<Block>): Option<Block> {
    FirstAfter(SortBy(Others(block, blocks), StartThenId()), block)
  }

  // ---- What the two are ----

  /** `a` starts earlier than `b`, or together with it under a lower id. */
  ghost predicate Before(a: Block, b: Block) {
    a.start < b.start || (a.start == b.start && a.id < b.id)
  }

  /** A live block of the same day. */
  predicate LiveMate(o: Block, block: Block, blocks: seq<Block>) {
    o in blocks && o.day == block.day && !o.ignored
  }

  ghost predicate DistinctIds(blocks: seq<Block>) {
    forall x, y :: x in blocks && y in blocks && x.id == y.id ==> x == y
  }

  ghost predicate IsNext(n: Block, block: Block, blocks: seq<Block>) {
    && LiveMate(n, block, blocks) && Before(block, n)
    && forall o :: LiveMate(o, block, blocks) && Before(block, o) ==> o == n || Before(n, o)
  }

  ghost predicate IsPrev(p: Block, block: Block, blocks: seq<Block>) {
    && LiveMate(p, block, blocks) && Before(p, block)
    && forall o :: LiveMate(o, block, blocks) && Before(o, block) ==> o == p || Before(o, p)
  }

  lemma {:induction false} OthersMembers(block: Block, blocks: seq<Block>, o: Block)
    ensures o in Others(block, blocks) <==> LiveMate(o, block, blocks) && o.id != block.id
  {
    if blocks != [] {
      OthersMembers(block, blocks[..|blocks| - 1], o);
      assert blocks == blocks[..|blocks| - 1] + [blocks[|blocks| - 1]];
    }
  }

  lemma {:induction false} FirstAfterFinds(s: seq<Block>, block: Block)
    requires SortedBy(s, StartThenId())
    ensures match FirstAfter(s, block)
            case None => forall o :: o in s ==> !Before(block, o)
            case Some(n) => n in s && Before(block, n) && forall o :: o in s && Before(block, o) ==> !Before(o, n)
  {
    if s != [] {
      var rest := s[1..];
      assert s == [s[0]] + rest;
      forall o | o in s ensures !Before(o, s[0]) {
        var i :| 0 <= i < |s| && s[i] == o;
        assert i > 0 ==> Leq(StartThenId()(s[0]), StartThenId()(s[i]));
      }
      FirstAfterFinds(rest, block);
    }
  }

  lemma {:induction false} LastBeforeFinds(s: seq<Block>, block: Block)
    requires SortedBy(s, StartThenId())
    ensures match LastBefore(s, block)
            case None => forall o :: o in s ==> !Before(o, block)
            case Some(p) => p in s && Before(p, block) && forall o :: o in s && Before(o, block) ==> !Before(p, o)
  {
    if s != [] {
      var n := |s| - 1;
      var init := s[..n];
      assert s == init + [s[n]];
      forall o | o in s ensures !Before(s[n], o) {
        var i :| 0 <= i < |s| && s[i] == o;
        assert i < n ==> Leq(StartThenId()(s[i]), StartThenId()(s[n]));
      }
      LastBeforeFinds(init, block);
    }
  }

  lemma SortedOthers(block: Block, blocks: seq<Block>, o: Block)
    requires DistinctIds(blocks) && block in blocks
    ensures o in SortBy(Others(block, blocks), StartThenId()) <==> LiveMate(o, block, blocks) && o != block
  {
    SortMember(Others(block, blocks), StartThenId(), o);
    OthersMembers(block, blocks, o);
  }

  /** `next` is the nearest live block strictly after in clock-then-id order, `prev` the nearest before. */
  lemma NeighboursAreNearest(block: Block, blocks: seq<Block>, o: Block)
    requires DistinctIds(blocks) && block in blocks
    ensures Next(block, blocks) == Some(o) <==> IsNext(o, block, blocks)
    ensures Prev(block, blocks) == Some(o) <==> IsPrev(o, block, blocks)
  {
    var sorted := SortBy(Others(block, blocks), StartThenId());
    SortBySorts(Others(block, blocks), StartThenId());
    FirstAfterFinds(sorted, block);
    LastBeforeFinds(sorted, block);
    forall x ensures x in sorted <==> LiveMate(x, block, blocks) && x != block {
      SortedOthers(block, blocks, x);
    }
    assert forall x, y :: x in blocks && y in blocks ==> Before(x, y) || Before(y, x) || x == y;
  }

  /** Among live blocks of a day, one is another's next exactly when that is its previous, even at equal starts. */
  lemma NeighboursAreMutual(a: Block, b: Block, blocks: seq<Block>)
    requires DistinctIds(blocks) && a in blocks && b in blocks && a.day == b.day && !a.ignored && !b.ignored
    ensures Next(a, blocks) == Some(b) <==> Prev(b, blocks) == Some(a)
  {
    NeighboursAreNearest(a, blocks, b);
    NeighboursAreNearest(b, blocks, a);
    forall o | LiveMate(o, a, blocks) ensures Before(a, o) || Before(o, a) || o == a { Trichotomy(a, o, blocks); }
    forall o | LiveMate(o, a, blocks) ensures Before(b, o) || Before(o, b) || o == b { Trichotomy(b, o, blocks); }
  }

  lemma Trichotomy(a: Block, o: Block, blocks: seq<Block>)
    requires DistinctIds(blocks) && a in blocks && o in blocks
    ensures Before(a, o) || Before(o, a) || o == a
  {
  }

  // ---- Following next visits the whole day ----

  function LiveOn(day: string, blocks: seq<Block>): seq<Block> {
    if blocks == [] then []
    else
      var o := blocks[|blocks| - 1];
      LiveOn(day, blocks[..|blocks| - 1]) + if o.day == day && !o.ignored then [o] else []
  }

  lemma {:induction false} LiveOnMembers(day: string, blocks: seq<Block>, o: Block)
    ensures o in LiveOn(day, blocks) <==> o in blocks && o.day == day && !o.ignored
  {
    if blocks != [] {
      LiveOnMembers(day, blocks[..|blocks| - 1], o);
      assert blocks == blocks[..|blocks| - 1] + [blocks[|blocks| - 1]];
    }
  }

  ghost predicate NoRepeats(blocks: seq<Block>) {
    forall i, j :: 0 <= i < j < |blocks| ==> blocks[i].id != blocks[j].id
  }

  lemma {:induction false} LiveOnDistinct(day: string, blocks: seq<Block>)
    requires NoRepeats(blocks)
    ensures DistinctRanks(LiveOn(day, blocks), StartThenId())
  {
    if blocks != [] {
      var n := |blocks| - 1;
      LiveOnDistinct(day, blocks[..n]);
      forall o | o in LiveOn(day, blocks[..n]) ensures o.id != blocks[n].id {
        LiveOnMembers(day, blocks[..n], o);
        var i :| 0 <= i < n && blocks[..n][i] == o;
      }
    }
  }

  /** The day's live blocks in clock-then-id order. */
  function DayOrder(day: string, blocks: seq<Block>): seq<Block> {
    SortBy(LiveOn(day, blocks), StartThenId())
  }

  lemma DayOrderAscends(day: string, blocks: seq<Block>)
    requires NoRepeats(blocks)
    ensures Ascends(DayOrder(day, blocks))
    ensures forall o :: o in DayOrder(day, blocks) <==> o in blocks && o.day == day && !o.ignored
  {
    var order := DayOrder(day, blocks);
    LiveOnDistinct(day, blocks);
    SortBySorts(LiveOn(day, blocks), StartThenId());
    SortKeepsDistinct(LiveOn(day, blocks), StartThenId());
    forall i, j | 0 <= i < j < |order| ensures Before(order[i], order[j]) {
      assert Leq(StartThenId()(order[i]), StartThenId()(order[j]));
      assert StartThenId()(order[i]) != StartThenId()(order[j]);
    }
    forall o ensures o in order <==> o in blocks && o.day == day && !o.ignored {
      SortMember(LiveOn(day, blocks), StartThenId(), o);
      LiveOnMembers(day, blocks, o);
    }
  }

  /** The day's order lists every live block once, and `next` steps through it one place at a time. */
  lemma NextWalksTheDay(day: string, blocks: seq<Block>, i: nat)
    requires NoRepeats(blocks) && i < |DayOrder(day, blocks)|
    ensures var order := DayOrder(day, blocks);
            && Next(order[i], blocks) == (if i + 1 < |order| then Some(order[i + 1]) else None)
            && Prev(order[i], blocks) == (if i > 0 then Some(order[i - 1]) else None)
            && |order| == |set o | o in blocks && o.day == day && !o.ignored|
  {
    var order := DayOrder(day, blocks);
    DayOrderAscends(day, blocks);
    var b := order[i];
    assert b in order;
    Identified(blocks);
    NextInOrder(order, b, blocks, i);
    PrevInOrder(order, b, blocks, i);
    CountOrder(order, set o | o in blocks && o.day == day && !o.ignored);
  }

  lemma Identified(blocks: seq<Block>)
    requires NoRepeats(blocks)
    ensures DistinctIds(blocks)
  {
    forall x, y | x in blocks && y in blocks && x.id == y.id ensures x == y {
      var i :| 0 <= i < |blocks| && blocks[i] == x;
      var j :| 0 <= j < |blocks| && blocks[j] == y;
    }
  }

  lemma NextInOrder(order: seq<Block>, b: Block, blocks: seq<Block>, i: nat)
    requires DistinctIds(blocks) && Ascends(order) && i < |order| && order[i] == b && b in blocks
    requires forall o :: o in order <==> LiveMate(o, b, blocks)
    ensures Next(b, blocks) == if i + 1 < |order| then Some(order[i + 1]) else None
  {
    if i + 1 < |order| {
      NeighbourInOrder(order, b, blocks, i, i + 1);
      NeighboursAreNearest(b, blocks, order[i + 1]);
    } else if Next(b, blocks).Some? {
      NoneAfterLast(order, Next(b, blocks).value);
      NeighboursAreNearest(b, blocks, Next(b, blocks).value);
    }
  }

  lemma PrevInOrder(order: seq<Block>, b: Block, blocks: seq<Block>, i: nat)
    requires DistinctIds(blocks) && Ascends(order) && i < |order| && order[i] == b && b in blocks
    requires forall o :: o in order <==> LiveMate(o, b, blocks)
    ensures Prev(b, blocks) == if i > 0 then Some(order[i - 1]) else None
  {
    if i > 0 {
      assert order[i - 1] in order && b in order;
      assert forall o :: LiveMate(o, order[i - 1], blocks) <==> LiveMate(o, b, blocks);
      NeighbourInOrder(order, order[i - 1], blocks, i - 1, i);
      NeighboursAreNearest(b, blocks, order[i - 1]);
    } else if Prev(b, blocks).Some? {
      NoneBeforeFirst(order, Prev(b, blocks).value);
      NeighboursAreNearest(b, blocks, Prev(b, blocks).value);
    }
  }

  lemma NoneBeforeFirst(order: seq<Block>, o: Block)
    requires order != [] && Ascends(order)
    ensures o in order ==> !Before(o, order[0])
  {
  }

  lemma NoneAfterLast(order: seq<Block>, o: Block)
    requires order != [] && Ascends(order)
    ensures o in order ==> !Before(order[|order| - 1], o)
  {
  }

  ghost predicate Ascends(order: seq<Block>) {
    forall k, l :: 0 <= k < l < |order| ==> Before(order[k], order[l])
  }

  lemma BeforeIsEarlier(order: seq<Block>, k: nat, l: nat)
    requires Ascends(order) && k < |order| && l < |order|
    ensures Before(order[k], order[l]) <==> k < l
  {
  }

  /** Places side by side in the day's order are each other's nearest. */
  lemma NeighbourInOrder(order: seq<Block>, b: Block, blocks: seq<Block>, i: nat, j: nat)
    requires i + 1 == j < |order| && order[i] == b && Ascends(order)
    requires forall o :: o in order <==> LiveMate(o, b, blocks)
    ensures IsNext(order[j], b, blocks) && IsPrev(b, order[j], blocks)
  {
    assert order[j] in order && b in order;
    forall o | LiveMate(o, b, blocks)
      ensures Before(b, o) ==> o == order[j] || Before(order[j], o)
      ensures Before(o, order[j]) ==> o == b || Before(o, b)
    {
      assert o in order;
      var k :| 0 <= k < |order| && order[k] == o;
      BeforeIsEarlier(order, i, k);
      BeforeIsEarlier(order, j, k);
      BeforeIsEarlier(order, k, i);
      BeforeIsEarlier(order, k, j);
    }
    assert forall o :: LiveMate(o, order[j], blocks) ==> LiveMate(o, b, blocks);
  }

  lemma {:induction false} CountOrder(order: seq<Block>, members: set<Block>)
    requires forall o :: o in order <==> o in members
    requires forall i, j :: 0 <= i < j < |order| ==> Before(order[i], order[j])
    ensures |members| == |order|
  {
    if order == [] {
      assert members == {};
    } else {
      var n := |order| - 1;
      assert order == order[..n] + [order[n]];
      assert order[n] !in order[..n];
      CountOrder(order[..n], members - {order[n]});
    }
  }

  // ---- Merging ----

  datatype Refusal = Locked | NoNeighbour | Overlap

  predicate Overlaps(a: Block, b: Block) {
    a.start < b.end && b.start < a.end
  }

  function MergeBlocked(block: Block, other: Option<Block>): Option<Refusal> {
    if block.locked then Some(Locked)
    else if other.None? then Some(NoNeighbour)
    else if other.value.locked then Some(Locked)
    else if Overlaps(block, other.value) then Some(Overlap)
    else None
  }

  predicate During(t: int, b: Block) {
    b.start <= t < b.end
  }

  /** A block without length whose place is inside the other. */
  predicate PointInside(a: Block, b: Block) {
    a.end <= a.start && b.start < a.end && a.start < b.end
  }

  /** Blocks overlap when some instant is in both, or one has no length and lies inside the other. */
  lemma OverlapIsShared(a: Block, b: Block)
    ensures Overlaps(a, b) <==> (exists t :: During(t, a) && During(t, b)) || PointInside(a, b) || PointInside(b, a)
  {
    if Overlaps(a, b) && a.start < a.end && b.start < b.end {
      var t := if a.start < b.start then b.start else a.start;
      assert During(t, a) && During(t, b);
    }
  }

  /**
   * A merge is offered exactly when there is a neighbour, neither block is locked, and they do not
   * overlap; otherwise the reason is the first of these that fails, a lock on either block before an overlap.
   */
  lemma MergeIsOffered(block: Block, other: Option<Block>)
    requires block.start < block.end && (other.Some? ==> other.value.start < other.value.end)
    ensures MergeBlocked(block, other).None? <==>
              && other.Some? && !block.locked && !other.value.locked
              && forall t :: During(t, block) ==> !During(t, other.value)
    ensures MergeBlocked(block, other) == Some(Locked) <==> block.locked || (other.Some? && other.value.locked)
    ensures MergeBlocked(block, other) == Some(NoNeighbour) <==> !block.locked && other.None?
  {
    if other.Some? { OverlapIsShared(block, other.value); }
  }

  /** Merge with next on a block and merge with previous on its next are offered or refused alike. */
  lemma MergeOffersAgree(a: Block, b: Block, blocks: seq<Block>)
    requires DistinctIds(blocks) && a in blocks && b in blocks && a.day == b.day && !a.ignored && !b.ignored
    requires Next(a, blocks) == Some(b)
    ensures MergeBlocked(a, Next(a, blocks)) == MergeBlocked(b, Prev(b, blocks))
  {
    NeighboursAreMutual(a, b, blocks);
  }
}
