/** What the change summary promises, for every log. */
module ChangeTheorems {
  import opened Options
  import opened Seqs
  import opened Sorting
  import opened Text
  import opened ChangeLog

  function Sorted(log: seq<BlockChange>): seq<BlockChange> {
    SortBy(log, IdRank())
  }

  /** A log's rows for one block and kind, in id order. */
  function RowsFor(log: seq<BlockChange>, key: string, kind: ChangeKind): seq<BlockChange> {
    OfKind(RowsOf(Sorted(log), key), kind)
  }

  /** A row of the block; descriptions are one kind, customer, deild and split together the other. */
  predicate Matches(c: BlockChange, key: string, kind: ChangeKind) {
    && c.day + "|" + c.startedAt == key
    && match kind
       case DescriptionKind => c.field == Description
       case BillingKind => c.field == Customer || c.field == Deild || c.field == Split
  }

  predicate BlockLists(b: BlockGroup, key: string, net: NetChange) {
    b.day + "|" + b.startedAt == key && net in b.changes
  }

  /** Some block of the summary with this key lists exactly this net change. */
  ghost predicate Reports(days: seq<DayGroup>, key: string, net: NetChange) {
    exists i, j :: 0 <= i < |days| && 0 <= j < |days[i].blocks| && BlockLists(days[i].blocks[j], key, net)
  }

  ghost predicate ReportsKind(days: seq<DayGroup>, key: string, kind: ChangeKind) {
    exists net :: Reports(days, key, net) && net.kind == kind
  }

  // ---- Membership ----

  lemma {:induction false} RowMembers(s: seq<BlockChange>, key: string, c: BlockChange)
    ensures c in RowsOf(s, key) <==> c in s && Key(c) == key
  {
    if s != [] {
      RowMembers(s[..|s| - 1], key, c);
      assert s == s[..|s| - 1] + [s[|s| - 1]];
    }
  }

  lemma {:induction false} KindMembers(s: seq<BlockChange>, kind: ChangeKind, c: BlockChange)
    ensures c in OfKind(s, kind) <==> c in s && KindOf(c) == kind
  {
    if s != [] {
      KindMembers(s[..|s| - 1], kind, c);
      assert s == s[..|s| - 1] + [s[|s| - 1]];
    }
  }

  lemma RowsForMembers(log: seq<BlockChange>, key: string, kind: ChangeKind, c: BlockChange)
    ensures c in RowsFor(log, key, kind) <==> c in log && Matches(c, key, kind)
  {
    KindMembers(RowsOf(Sorted(log), key), kind, c);
    RowMembers(Sorted(log), key, c);
    SortMember(log, IdRank(), c);
  }

  lemma {:induction false} DifferingMembers(nets: seq<NetChange>, net: NetChange)
    ensures net in Differing(nets) <==> net in nets && net.before != net.after
  {
    if nets != [] {
      DifferingMembers(nets[..|nets| - 1], net);
      assert nets == nets[..|nets| - 1] + [nets[|nets| - 1]];
    }
  }

  lemma ChangesMembers(rows: seq<BlockChange>, net: NetChange)
    ensures net in ChangesOf(rows) <==>
            OfKind(rows, net.kind) != [] && net == NetOf(OfKind(rows, net.kind), net.kind)
  {
    KindsDistinct(rows);
    var kinds := KindsOf(rows);
    if OfKind(rows, net.kind) != [] && net == NetOf(OfKind(rows, net.kind), net.kind) {
      var i :| 0 <= i < |kinds| && kinds[i] == net.kind;
      assert ChangesOf(rows)[i] == net;
    }
    if net in ChangesOf(rows) {
      var i :| 0 <= i < |kinds| && ChangesOf(rows)[i] == net;
      assert kinds[i] in kinds && net.kind == kinds[i];
    }
  }

  lemma {:induction false} ShownIsShowing(groups: seq<BlockGroup>, i: nat)
    requires i < |groups| && Shown(groups[i]).changes != []
    ensures Shown(groups[i]) in Showing(groups)
  {
    if i < |groups| - 1 { ShownIsShowing(groups[..|groups| - 1], i); }
  }

  lemma {:induction false} ShowingIsShown(groups: seq<BlockGroup>, b: BlockGroup) returns (i: nat)
    requires b in Showing(groups)
    ensures i < |groups| && b == Shown(groups[i]) && b.changes != []
  {
    i := |groups| - 1;
    if b != Shown(groups[i]) || b.changes == [] {
      i := ShowingIsShown(groups[..|groups| - 1], b);
    }
  }

  lemma {:induction false} OnDayMembers(blocks: seq<BlockGroup>, day: string, b: BlockGroup)
    ensures b in OnDay(blocks, day) <==> b in blocks && b.day == day
  {
    if blocks != [] {
      OnDayMembers(blocks[..|blocks| - 1], day, b);
      assert blocks == blocks[..|blocks| - 1] + [blocks[|blocks| - 1]];
    }
  }

  /** A block is in some day group exactly when it shows something. */
  lemma DayGroupMembers(blocks: seq<BlockGroup>, cal: Calendar, b: BlockGroup)
    ensures b in blocks <==> exists i, j ::
              0 <= i < |DayGroups(blocks, cal)| && 0 <= j < |DayGroups(blocks, cal)[i].blocks|
              && DayGroups(blocks, cal)[i].blocks[j] == b
  {
    var days := SortBy(DaysIn(blocks), NewestFirst(cal));
    var groups := DayGroups(blocks, cal);
    OnDayMembers(blocks, b.day, b);
    if b in blocks {
      DaysDistinct(blocks);
      SortMember(DaysIn(blocks), NewestFirst(cal), b.day);
      var i :| 0 <= i < |days| && days[i] == b.day;
      SortMember(OnDay(blocks, b.day), StartRank(cal), b);
      assert b in groups[i].blocks;
      var j :| 0 <= j < |groups[i].blocks| && groups[i].blocks[j] == b;
    }
    if i, j :| 0 <= i < |groups| && 0 <= j < |groups[i].blocks| && groups[i].blocks[j] == b {
      SortMember(OnDay(blocks, days[i]), StartRank(cal), b);
      OnDayMembers(blocks, days[i], b);
    }
  }

  lemma GroupKey(s: seq<BlockChange>, key: string)
    requires RowsOf(s, key) != []
    ensures GroupOf(s, key).day + "|" + GroupOf(s, key).startedAt == key
  {
    RowMembers(s, key, RowsOf(s, key)[0]);
  }

  ghost predicate IsRealNet(log: seq<BlockChange>, key: string, net: NetChange) {
    var rows := RowsFor(log, key, net.kind);
    rows != [] && net == NetOf(rows, net.kind) && net.before != net.after
  }

  lemma ReportsFromBlocks(blocks: seq<BlockGroup>, cal: Calendar, key: string, net: NetChange)
    ensures Reports(DayGroups(blocks, cal), key, net) <==> exists b :: b in blocks && BlockLists(b, key, net)
  {
    var r := DayGroups(blocks, cal);
    if i, j :| 0 <= i < |r| && 0 <= j < |r[i].blocks| && BlockLists(r[i].blocks[j], key, net) {
      DayGroupMembers(blocks, cal, r[i].blocks[j]);
    }
    if b :| b in blocks && BlockLists(b, key, net) {
      DayGroupMembers(blocks, cal, b);
    }
  }

  /** What the blocks of a list of groups show is what real nets their rows have. */
  lemma ShowingLists(s: seq<BlockChange>, key: string, net: NetChange)
    ensures (exists b :: b in Showing(Groups(s)) && BlockLists(b, key, net))
       <==> OfKind(RowsOf(s, key), net.kind) != [] && net == NetOf(OfKind(RowsOf(s, key), net.kind), net.kind)
            && net.before != net.after
  {
    var groups, keys := Groups(s), KeysOf(s);
    KeysDistinct(s);
    ChangesMembers(RowsOf(s, key), net);
    if b :| b in Showing(groups) && BlockLists(b, key, net) {
      var g := ShowingIsShown(groups, b);
      assert keys[g] in keys;
      GroupKey(s, keys[g]);
      ShownMembers(groups[g], net);
    }
    if OfKind(RowsOf(s, key), net.kind) != [] && net in ChangesOf(RowsOf(s, key)) && net.before != net.after {
      RowMembersNonEmpty(s, key, net.kind);
      var g :| 0 <= g < |keys| && keys[g] == key;
      GroupKey(s, key);
      ShownMembers(groups[g], net);
      ShownIsShowing(groups, g);
      assert BlockLists(Shown(groups[g]), key, net);
    }
  }

  /** A net is listed for a block exactly when it is the block's first-old/last-new net and does not cancel out. */
  lemma ReportsExactlyTheNets(log: seq<BlockChange>, cal: Calendar, key: string, net: NetChange)
    ensures Reports(Summary(log, cal), key, net) <==> IsRealNet(log, key, net)
  {
    ReportsFromBlocks(Showing(Groups(Sorted(log))), cal, key, net);
    ShowingLists(Sorted(log), key, net);
  }

  lemma ShownMembers(b: BlockGroup, net: NetChange)
    ensures net in Shown(b).changes <==> net in b.changes && net.before != net.after
  {
    SortMember(Differing(b.changes), KindRank(), net);
    DifferingMembers(b.changes, net);
  }

  lemma RowMembersNonEmpty(s: seq<BlockChange>, key: string, kind: ChangeKind)
    requires OfKind(RowsOf(s, key), kind) != []
    ensures RowsOf(s, key) != []
  {
  }

  // ---- First old, last new ----

  lemma {:induction false} RowsSorted(s: seq<BlockChange>, key: string, kind: ChangeKind)
    requires SortedBy(s, IdRank())
    ensures SortedBy(RowsOf(s, key), IdRank()) && SortedBy(OfKind(s, kind), IdRank())
  {
    if s != [] {
      var init, last := s[..|s| - 1], s[|s| - 1];
      RowsSorted(init, key, kind);
      forall c | c in RowsOf(init, key) || c in OfKind(init, kind) ensures Leq(IdRank()(c), IdRank()(last)) {
        RowMembers(init, key, c);
        KindMembers(init, kind, c);
      }
    }
  }

  lemma RowsForSorted(log: seq<BlockChange>, key: string, kind: ChangeKind)
    ensures SortedBy(RowsFor(log, key, kind), IdRank())
  {
    SortBySorts(log, IdRank());
    RowsSorted(Sorted(log), key, kind);
    RowsSorted(RowsOf(Sorted(log), key), key, kind);
  }

  /** `c` is the only row with the lowest id (or highest, for `lowest == false`) of a block and kind. */
  ghost predicate Extreme(log: seq<BlockChange>, c: BlockChange, key: string, kind: ChangeKind, lowest: bool) {
    && c in log && Matches(c, key, kind)
    && forall r :: r in log && Matches(r, key, kind) && r != c ==> if lowest then c.id < r.id else r.id < c.id
  }

  /**
   * For each block the summary reports one description change and one billing change, each from its
   * oldest row's old value to its newest row's new value, exactly when those differ; the last source is
   * the newest row's.
   */
  lemma FirstOldLastNew(
    log: seq<BlockChange>, cal: Calendar, key: string, kind: ChangeKind, lo: BlockChange, hi: BlockChange, net: NetChange)
    requires Extreme(log, lo, key, kind, true) && Extreme(log, hi, key, kind, false)
    ensures Reports(Summary(log, cal), key, net) && net.kind == kind ==>
              && Blank(lo.before) != Blank(hi.after)
              && net.before == Blank(lo.before) && net.after == Blank(hi.after)
              && net.sources != [] && net.sources[|net.sources| - 1] == hi.source
    ensures Blank(lo.before) != Blank(hi.after) <==>
              ReportsKind(Summary(log, cal), key, kind)
  {
    ExtremeRow(log, lo, key, kind, true, RowsFor(log, key, kind));
    ExtremeRow(log, hi, key, kind, false, RowsFor(log, key, kind));
    forall n { ReportsExactlyTheNets(log, cal, key, n); }
    NetOfEnds(log, Summary(log, cal), key, kind, lo, hi, net);
  }

  /** Of a block's rows of one kind exactly the net is reported. */
  ghost predicate ReportsNets(log: seq<BlockChange>, days: seq<DayGroup>, key: string) {
    forall n :: Reports(days, key, n) <==> IsRealNet(log, key, n)
  }

  lemma NetOfEnds(
    log: seq<BlockChange>, days: seq<DayGroup>, key: string, kind: ChangeKind, lo: BlockChange, hi: BlockChange,
    net: NetChange)
    requires ReportsNets(log, days, key)
    requires var rows := RowsFor(log, key, kind); rows != [] && lo == rows[0] && hi == rows[|rows| - 1]
    ensures Reports(days, key, net) && net.kind == kind ==>
              && Blank(lo.before) != Blank(hi.after)
              && net.before == Blank(lo.before) && net.after == Blank(hi.after)
              && net.sources != [] && net.sources[|net.sources| - 1] == hi.source
    ensures Blank(lo.before) != Blank(hi.after) <==> ReportsKind(days, key, kind)
  {
    var rows := RowsFor(log, key, kind);
    NetFromEnds(rows, kind);
    if Blank(lo.before) != Blank(hi.after) {
      assert IsRealNet(log, key, NetOf(rows, kind));
    }
  }

  /** A block without rows of a kind reports no change of it. */
  lemma NoRowsNoChange(log: seq<BlockChange>, cal: Calendar, key: string, net: NetChange)
    requires Reports(Summary(log, cal), key, net)
    ensures exists c :: c in log && Matches(c, key, net.kind)
  {
    ReportsExactlyTheNets(log, cal, key, net);
    var c := RowsFor(log, key, net.kind)[0];
    RowsForMembers(log, key, net.kind, c);
  }

  lemma NetFromEnds(rows: seq<BlockChange>, kind: ChangeKind)
    requires rows != []
    ensures var net := NetOf(rows, kind);
            && net.kind == kind
            && net.before == Blank(rows[0].before) && net.after == Blank(rows[|rows| - 1].after)
            && net.sources != [] && net.sources[|net.sources| - 1] == rows[|rows| - 1].source
  {
    LastTouchEndsWithLast(rows);
  }

  lemma EndOfSorted(rows: seq<BlockChange>, c: BlockChange, lowest: bool)
    requires SortedBy(rows, IdRank()) && c in rows
    requires forall r :: r in rows && r != c ==> if lowest then c.id < r.id else r.id < c.id
    ensures c == if lowest then rows[0] else rows[|rows| - 1]
  {
    var end := if lowest then rows[0] else rows[|rows| - 1];
    var i :| 0 <= i < |rows| && rows[i] == c;
    assert if lowest then Leq(IdRank()(end), IdRank()(c)) else Leq(IdRank()(c), IdRank()(end));
  }

  lemma ExtremeRow(
    log: seq<BlockChange>, c: BlockChange, key: string, kind: ChangeKind, lowest: bool, rows: seq<BlockChange>)
    requires Extreme(log, c, key, kind, lowest) && rows == RowsFor(log, key, kind)
    ensures rows != [] && c == if lowest then rows[0] else rows[|rows| - 1]
  {
    RowsForSorted(log, key, kind);
    RowsForMembers(log, key, kind, c);
    forall r | r in rows && r != c ensures if lowest then c.id < r.id else r.id < c.id {
      RowsForMembers(log, key, kind, r);
    }
    EndOfSorted(rows, c, lowest);
  }

  lemma LastTouchEndsWithLast(rows: seq<BlockChange>)
    requires rows != []
    ensures var t := ByLastTouch(Authors(rows)); t != [] && t[|t| - 1] == rows[|rows| - 1].source
  {
    ByLastTouchSnoc(Authors(rows[..|rows| - 1]), rows[|rows| - 1].source);
  }

  /** A missing, empty or blank value all read as no value; any other stands as written. */
  lemma BlankReadsAsNone(v: Option<string>)
    ensures Blank(v) == if v.Some? && !AllSpace(v.value) then v else None
  {
    if v.Some? { TrimEmpty(v.value); }
  }

  // ---- The order of the log does not matter ----

  lemma SummaryIgnoresOrder(log: seq<BlockChange>, shuffled: seq<BlockChange>, cal: Calendar)
    requires multiset(log) == multiset(shuffled)
    requires forall i, j :: 0 <= i < j < |log| ==> log[i].id != log[j].id
    ensures Summary(log, cal) == Summary(shuffled, cal)
  {
    SortIgnoresOrder(log, shuffled, IdRank());
  }

  // ---- Cutting the log ----

  function Minus(authors: seq<Author>, others: seq<Author>): seq<Author> {
    if authors == [] then [] else (if authors[0] in others then [] else [authors[0]]) + Minus(authors[1..], others)
  }

  /** The net of an earlier stretch followed by that of a later one; a stretch without rows has no sources. */
  function Compose(a: NetChange, b: NetChange): NetChange {
    if a.sources == [] then b
    else if b.sources == [] then a
    else NetChange(a.kind, a.before, b.after, Minus(a.sources, b.sources) + b.sources)
  }

  lemma {:induction false} LastTouchMembers(authors: seq<Author>, a: Author)
    ensures a in ByLastTouch(authors) <==> a in authors
  {
    if authors != [] {
      LastTouchMembers(authors[1..], a);
      assert authors == [authors[0]] + authors[1..];
    }
  }

  lemma {:induction false} LastTouchConcat(s: seq<Author>, t: seq<Author>)
    ensures ByLastTouch(s + t) == Minus(ByLastTouch(s), ByLastTouch(t)) + ByLastTouch(t)
  {
    if s == [] {
      assert s + t == t;
    } else {
      var x, rest := s[0], s[1..];
      LastTouchConcat(rest, t);
      LastTouchMembers(t, x);
      assert s == [x] + rest;
      Assoc([x], rest, t);
      LastTouchCons(x, rest);
      LastTouchCons(x, rest + t);
      if x !in rest {
        MinusCons(x, ByLastTouch(rest), ByLastTouch(t));
        if x !in t {
          Assoc([x], Minus(ByLastTouch(rest), ByLastTouch(t)), ByLastTouch(t));
        }
      }
    }
  }

  lemma MinusCons(x: Author, s: seq<Author>, t: seq<Author>)
    ensures Minus([x] + s, t) == if x in t then Minus(s, t) else [x] + Minus(s, t)
  {
    assert [] + Minus(s, t) == Minus(s, t);
    assert ([x] + s)[1..] == s;
  }

  lemma {:induction false} RowsConcat(s: seq<BlockChange>, t: seq<BlockChange>, key: string, kind: ChangeKind)
    ensures RowsOf(s + t, key) == RowsOf(s, key) + RowsOf(t, key)
    ensures OfKind(s + t, kind) == OfKind(s, kind) + OfKind(t, kind)
    ensures Authors(s + t) == Authors(s) + Authors(t)
  {
    if t == [] {
      assert s + t == s;
    } else {
      assert (s + t)[..|s + t| - 1] == s + t[..|t| - 1];
      RowsConcat(s, t[..|t| - 1], key, kind);
    }
  }

  lemma NetConcat(s: seq<BlockChange>, t: seq<BlockChange>, kind: ChangeKind)
    ensures NetOf(s + t, kind) == Compose(NetOf(s, kind), NetOf(t, kind))
  {
    if s == [] {
      assert s + t == t;
    } else if t == [] {
      LastTouchEndsWithLast(s);
      assert s + t == s;
    } else {
      LastTouchEndsWithLast(s);
      LastTouchEndsWithLast(t);
      RowsConcat(s, t, "", kind);
      LastTouchConcat(Authors(s), Authors(t));
    }
  }

  /** Cut at any id, the whole log's net is the earlier part's net composed with the later part's. */
  lemma NetsCompose(log: seq<BlockChange>, cut: int, key: string, kind: ChangeKind)
    ensures var earlier, later := Below(log, IdRank(), cut, true), Below(log, IdRank(), cut, false);
            NetOf(RowsFor(log, key, kind), kind)
              == Compose(NetOf(RowsFor(earlier, key, kind), kind), NetOf(RowsFor(later, key, kind), kind))
  {
    var earlier, later := Sorted(Below(log, IdRank(), cut, true)), Sorted(Below(log, IdRank(), cut, false));
    SortCuts(log, IdRank(), cut);
    RowsConcat(earlier, later, key, kind);
    RowsConcat(RowsOf(earlier, key), RowsOf(later, key), key, kind);
    NetConcat(OfKind(RowsOf(earlier, key), kind), OfKind(RowsOf(later, key), kind), kind);
  }

  // ---- Sources ----

  /** Position of an author's last row. */
  function LastIndex(authors: seq<Author>, a: Author): (i: nat)
    requires a in authors
    ensures i < |authors| && authors[i] == a && a !in authors[i + 1..]
  {
    if a in authors[1..] then 1 + LastIndex(authors[1..], a) else 0
  }

  ghost predicate ByLastRow(authors: seq<Author>, listed: seq<Author>) {
    && (forall a :: a in listed ==> a in authors)
    && forall i, j :: 0 <= i < j < |listed| ==> LastIndex(authors, listed[i]) < LastIndex(authors, listed[j])
  }

  lemma LaterRows(x: Author, rest: seq<Author>, listed: seq<Author>)
    requires ByLastRow(rest, listed)
    ensures ByLastRow([x] + rest, listed)
  {
    var all := [x] + rest;
    assert all[1..] == rest;
    forall a | a in listed ensures a in all && LastIndex(all, a) == LastIndex(rest, a) + 1 {
      assert a in rest;
    }
  }

  /** Sources list each author once, ordered by the author's last row. */
  lemma {:induction false} SourcesByLastRow(authors: seq<Author>)
    ensures forall a :: a in ByLastTouch(authors) <==> a in authors
    ensures ByLastRow(authors, ByLastTouch(authors))
  {
    forall a ensures a in ByLastTouch(authors) <==> a in authors { LastTouchMembers(authors, a); }
    if authors != [] {
      var x, rest := authors[0], authors[1..];
      assert authors == [x] + rest;
      SourcesByLastRow(rest);
      LaterRows(x, rest, ByLastTouch(rest));
      LastTouchCons(x, rest);
    }
  }

  // ---- Order and count ----

  lemma {:induction false} DifferingKinds(nets: seq<NetChange>)
    requires DistinctRanks(nets, KindRank())
    ensures DistinctRanks(Differing(nets), KindRank())
  {
    if nets != [] {
      var init, last := nets[..|nets| - 1], nets[|nets| - 1];
      DifferingKinds(init);
      forall net | net in Differing(init) ensures KindRank()(net) != KindRank()(last) {
        DifferingMembers(init, net);
        var i :| 0 <= i < |init| && init[i] == net;
        assert nets[i] == net;
      }
    }
  }

  lemma GroupKindsDistinct(s: seq<BlockChange>, key: string)
    ensures DistinctRanks(GroupOf(s, key).changes, KindRank())
  {
    var rows := RowsOf(s, key);
    KindsDistinct(rows);
    var kinds, changes := KindsOf(rows), ChangesOf(rows);
    forall i, j | 0 <= i < j < |changes| ensures KindRank()(changes[i]) != KindRank()(changes[j]) {
      assert changes[i].kind == kinds[i] && changes[j].kind == kinds[j];
    }
  }

  predicate Precedes(a: NetChange, b: NetChange) {
    a.kind == DescriptionKind && b.kind == BillingKind
  }

  ghost predicate DescriptionFirst(changes: seq<NetChange>) {
    forall p, q :: 0 <= p < q < |changes| ==> Precedes(changes[p], changes[q])
  }

  lemma SortedKinds(changes: seq<NetChange>)
    requires SortedBy(changes, KindRank()) && DistinctRanks(changes, KindRank())
    ensures DescriptionFirst(changes)
  {
    forall p, q | 0 <= p < q < |changes|
      ensures Precedes(changes[p], changes[q])
    {
      assert KindRank()(changes[p]) != KindRank()(changes[q]) && Leq(KindRank()(changes[p]), KindRank()(changes[q]));
    }
  }

  lemma ShownOrder(b: BlockGroup)
    requires DistinctRanks(b.changes, KindRank())
    ensures DescriptionFirst(Shown(b).changes)
  {
    DifferingKinds(b.changes);
    SortKeepsDistinct(Differing(b.changes), KindRank());
    SortBySorts(Differing(b.changes), KindRank());
    SortedKinds(Shown(b).changes);
  }

  /** The order of days tells the log's own days apart; other strings may compare equal. */
  ghost predicate TellsDaysApart(cal: Calendar, log: seq<BlockChange>) {
    forall c, d :: c in log && d in log && cal.dayOrder(c.day) == cal.dayOrder(d.day) ==> c.day == d.day
  }

  /** Every block shown carries the day of some row. */
  lemma ShownDay(s: seq<BlockChange>, b: BlockGroup) returns (c: BlockChange)
    requires b in Showing(Groups(s))
    ensures c in s && c.day == b.day
  {
    var g := ShowingIsShown(Groups(s), b);
    var key := KeysOf(s)[g];
    KeysDistinct(s);
    c := RowsOf(s, key)[0];
    RowMembers(s, key, c);
  }

  lemma ShownDaysApart(log: seq<BlockChange>, cal: Calendar)
    requires TellsDaysApart(cal, log)
    ensures DistinctRanks(DaysIn(Showing(Groups(Sorted(log)))), NewestFirst(cal))
  {
    var s := Sorted(log);
    var blocks := Showing(Groups(s));
    var days := DaysIn(blocks);
    DaysDistinct(blocks);
    forall i, j | 0 <= i < j < |days| ensures NewestFirst(cal)(days[i]) != NewestFirst(cal)(days[j]) {
      var c := DayRow(s, days[i]);
      var d := DayRow(s, days[j]);
      SortMember(log, IdRank(), c);
      SortMember(log, IdRank(), d);
    }
  }

  lemma DayRow(s: seq<BlockChange>, day: string) returns (c: BlockChange)
    requires day in DaysIn(Showing(Groups(s)))
    ensures c in s && c.day == day
  {
    var blocks := Showing(Groups(s));
    DaysDistinct(blocks);
    var b := OnDay(blocks, day)[0];
    OnDayMembers(blocks, day, b);
    c := ShownDay(s, b);
  }

  ghost predicate Descending(days: seq<string>, cal: Calendar) {
    forall i, j :: 0 <= i < j < |days| ==> cal.dayOrder(days[i]) > cal.dayOrder(days[j])
  }

  /** The days of the summary, in the order shown. */
  function DaysShown(blocks: seq<BlockGroup>, cal: Calendar): seq<string> {
    SortBy(DaysIn(blocks), NewestFirst(cal))
  }

  lemma DaysDescend(blocks: seq<BlockGroup>, cal: Calendar)
    requires DistinctRanks(DaysIn(blocks), NewestFirst(cal))
    ensures Descending(DaysShown(blocks, cal), cal)
  {
    var days := DaysShown(blocks, cal);
    SortKeepsDistinct(DaysIn(blocks), NewestFirst(cal));
    SortBySorts(DaysIn(blocks), NewestFirst(cal));
    forall i, j | 0 <= i < j < |days| ensures cal.dayOrder(days[i]) > cal.dayOrder(days[j]) {
      assert NewestFirst(cal)(days[i]) != NewestFirst(cal)(days[j]);
      assert Leq(NewestFirst(cal)(days[i]), NewestFirst(cal)(days[j]));
    }
  }

  ghost predicate InClockOrder(blocks: seq<BlockGroup>, cal: Calendar) {
    forall j, k :: 0 <= j < k < |blocks| ==> cal.instant(blocks[j].startedAt) <= cal.instant(blocks[k].startedAt)
  }

  lemma DayInOrder(blocks: seq<BlockGroup>, day: string, cal: Calendar)
    ensures InClockOrder(DayGroupOf(blocks, day, cal).blocks, cal)
    ensures forall b :: b in DayGroupOf(blocks, day, cal).blocks ==> b in blocks && b.day == day
  {
    SortBySorts(OnDay(blocks, day), StartRank(cal));
    var sorted := DayGroupOf(blocks, day, cal).blocks;
    forall j, k | 0 <= j < k < |sorted|
      ensures cal.instant(sorted[j].startedAt) <= cal.instant(sorted[k].startedAt)
    {
      assert Leq(StartRank(cal)(sorted[j]), StartRank(cal)(sorted[k]));
    }
    forall b | b in sorted ensures b in blocks && b.day == day {
      SortMember(OnDay(blocks, day), StartRank(cal), b);
      OnDayMembers(blocks, day, b);
    }
  }

  lemma ShowingOrder(s: seq<BlockChange>, b: BlockGroup)
    requires b in Showing(Groups(s))
    ensures b.changes != [] && DescriptionFirst(b.changes)
  {
    var g := ShowingIsShown(Groups(s), b);
    GroupKindsDistinct(s, KeysOf(s)[g]);
    ShownOrder(Groups(s)[g]);
  }

  ghost predicate NewestDayFirst(days: seq<DayGroup>, cal: Calendar) {
    forall i, j :: 0 <= i < j < |days| ==> cal.dayOrder(days[i].day) > cal.dayOrder(days[j].day)
  }

  /** A day's blocks in clock order, all of that day, each with changes, the description change first. */
  ghost predicate DayInShape(d: DayGroup, cal: Calendar) {
    && InClockOrder(d.blocks, cal)
    && forall b :: b in d.blocks ==> b.day == d.day && b.changes != [] && DescriptionFirst(b.changes)
  }

  lemma DayShape(s: seq<BlockChange>, day: string, cal: Calendar)
    ensures DayInShape(DayGroupOf(Showing(Groups(s)), day, cal), cal)
  {
    var blocks := Showing(Groups(s));
    DayInOrder(blocks, day, cal);
    forall b | b in DayGroupOf(blocks, day, cal).blocks
      ensures b.day == day && b.changes != [] && DescriptionFirst(b.changes)
    {
      ShowingOrder(s, b);
    }
  }

  lemma DayGroupsDescend(blocks: seq<BlockGroup>, cal: Calendar)
    requires DistinctRanks(DaysIn(blocks), NewestFirst(cal))
    ensures NewestDayFirst(DayGroups(blocks, cal), cal)
  {
    DaysDescend(blocks, cal);
    var days, groups := DaysShown(blocks, cal), DayGroups(blocks, cal);
    forall i, j | 0 <= i < j < |groups| ensures cal.dayOrder(groups[i].day) > cal.dayOrder(groups[j].day) {
      assert groups[i].day == days[i] && groups[j].day == days[j];
    }
  }

  // ---- Blocks that start together ----

  function KeyList(s: seq<BlockChange>): seq<string> {
    if s == [] then [] else KeyList(s[..|s| - 1]) + [Key(s[|s| - 1])]
  }

  /** Groups stand in the order in which their blocks were first touched. */
  lemma {:induction false} KeysByFirstTouch(s: seq<BlockChange>)
    ensures ByFirstPlace(KeyList(s), KeysOf(s)) && forall key :: key in KeyList(s) <==> key in KeysOf(s)
  {
    if s != [] {
      var init, last := s[..|s| - 1], s[|s| - 1];
      KeysByFirstTouch(init);
      FirstPlaceSnoc(KeyList(init), KeysOf(init), Key(last));
    }
  }

  /** Both blocks have rows, and the first one's first row comes no later. */
  predicate TouchedEarlier(s: seq<BlockChange>, a: BlockGroup, b: BlockGroup) {
    var keys, k, l := KeyList(s), a.day + "|" + a.startedAt, b.day + "|" + b.startedAt;
    k in keys && l in keys && FirstAt(keys, k) <= FirstAt(keys, l)
  }

  ghost predicate InTouchOrder(s: seq<BlockChange>, blocks: seq<BlockGroup>) {
    forall i, j :: 0 <= i < j < |blocks| ==> TouchedEarlier(s, blocks[i], blocks[j])
  }

  lemma GroupsInTouchOrder(s: seq<BlockChange>)
    ensures InTouchOrder(s, Groups(s))
  {
    var groups, keys := Groups(s), KeysOf(s);
    KeysByFirstTouch(s);
    KeysDistinct(s);
    forall g | 0 <= g < |groups| ensures groups[g].day + "|" + groups[g].startedAt == keys[g] && keys[g] in keys {
      GroupKey(s, keys[g]);
    }
  }

  lemma {:induction false} ShowingInTouchOrder(s: seq<BlockChange>, groups: seq<BlockGroup>)
    requires InTouchOrder(s, groups)
    ensures InTouchOrder(s, Showing(groups))
  {
    if groups != [] {
      var n := |groups| - 1;
      ShowingInTouchOrder(s, groups[..n]);
      forall b | b in Showing(groups[..n]) ensures TouchedEarlier(s, b, Shown(groups[n])) {
        var i := ShowingIsShown(groups[..n], b);
        assert TouchedEarlier(s, groups[i], groups[n]);
      }
    }
  }

  lemma {:induction false} DayInTouchOrder(s: seq<BlockChange>, blocks: seq<BlockGroup>, day: string)
    requires InTouchOrder(s, blocks)
    ensures InTouchOrder(s, OnDay(blocks, day))
  {
    if blocks != [] {
      var n := |blocks| - 1;
      DayInTouchOrder(s, blocks[..n], day);
      forall b | b in OnDay(blocks[..n], day) ensures TouchedEarlier(s, b, blocks[n]) {
        OnDayMembers(blocks[..n], day, b);
        var i :| 0 <= i < n && blocks[..n][i] == b;
        assert TouchedEarlier(s, blocks[i], blocks[n]);
      }
    }
  }

  /** Blocks of a day that start at the same instant stand in the order they were first touched. */
  ghost predicate TiesByTouch(s: seq<BlockChange>, blocks: seq<BlockGroup>, cal: Calendar) {
    forall j, k :: 0 <= j < k < |blocks| && cal.instant(blocks[j].startedAt) == cal.instant(blocks[k].startedAt) ==>
      TouchedEarlier(s, blocks[j], blocks[k])
  }

  lemma DayTies(s: seq<BlockChange>, day: string, cal: Calendar)
    ensures TiesByTouch(s, DayGroupOf(Showing(Groups(s)), day, cal).blocks, cal)
  {
    GroupsInTouchOrder(s);
    ShowingInTouchOrder(s, Groups(s));
    DayInTouchOrder(s, Showing(Groups(s)), day);
    var before := (a: BlockGroup, b: BlockGroup) => TouchedEarlier(s, a, b);
    SortKeepsTies(OnDay(Showing(Groups(s)), day), StartRank(cal), before);
    var blocks := DayGroupOf(Showing(Groups(s)), day, cal).blocks;
    forall j, k | 0 <= j < k < |blocks| && cal.instant(blocks[j].startedAt) == cal.instant(blocks[k].startedAt)
      ensures TouchedEarlier(s, blocks[j], blocks[k])
    {
      assert StartRank(cal)(blocks[j]) == StartRank(cal)(blocks[k]);
      assert before(blocks[j], blocks[k]);
    }
  }

  /** Newest day first and each day once; every day in shape, ties by first touch. */
  lemma SummaryOrder(log: seq<BlockChange>, cal: Calendar)
    requires TellsDaysApart(cal, log)
    ensures NewestDayFirst(Summary(log, cal), cal)
    ensures forall d :: d in Summary(log, cal) ==> DayInShape(d, cal) && TiesByTouch(Sorted(log), d.blocks, cal)
  {
    var blocks := Showing(Groups(Sorted(log)));
    ShownDaysApart(log, cal);
    DayGroupsDescend(blocks, cal);
    forall d | d in DayGroups(blocks, cal) ensures DayInShape(d, cal) && TiesByTouch(Sorted(log), d.blocks, cal) {
      DayShape(Sorted(log), d.day, cal);
      DayTies(Sorted(log), d.day, cal);
    }
  }

  function CountBlocks(days: seq<DayGroup>): nat {
    if days == [] then 0 else CountBlocks(days[..|days| - 1]) + |days[|days| - 1].blocks|
  }

  function CountOn(days: seq<string>, blocks: seq<BlockGroup>): nat {
    if days == [] then 0 else CountOn(days[..|days| - 1], blocks) + |OnDay(blocks, days[|days| - 1])|
  }

  lemma {:induction false} CountOnSnoc(days: seq<string>, blocks: seq<BlockGroup>, b: BlockGroup)
    requires forall i, j :: 0 <= i < j < |days| ==> days[i] != days[j]
    ensures CountOn(days, blocks + [b]) == CountOn(days, blocks) + if b.day in days then 1 else 0
  {
    if days != [] {
      var init, last := days[..|days| - 1], days[|days| - 1];
      CountOnSnoc(init, blocks, b);
      OnDaySnoc(blocks, b, last);
      assert days == init + [last];
    }
  }

  lemma {:induction false} CountOnAll(days: seq<string>, blocks: seq<BlockGroup>)
    requires forall i, j :: 0 <= i < j < |days| ==> days[i] != days[j]
    requires forall b :: b in blocks ==> b.day in days
    ensures CountOn(days, blocks) == |blocks|
  {
    if blocks == [] {
      CountOnNone(days);
    } else {
      var init, last := blocks[..|blocks| - 1], blocks[|blocks| - 1];
      CountOnAll(days, init);
      CountOnSnoc(days, init, last);
      assert blocks == init + [last];
    }
  }

  lemma {:induction false} CountOnNone(days: seq<string>)
    ensures CountOn(days, []) == 0
  {
    if days != [] { CountOnNone(days[..|days| - 1]); }
  }

  lemma {:induction false} CountByDay(groups: seq<DayGroup>, days: seq<string>, blocks: seq<BlockGroup>, cal: Calendar)
    requires |groups| == |days| && forall i :: 0 <= i < |days| ==> groups[i] == DayGroupOf(blocks, days[i], cal)
    ensures CountBlocks(groups) == CountOn(days, blocks)
  {
    if days != [] {
      var n := |days| - 1;
      CountByDay(groups[..n], days[..n], blocks, cal);
      SortLength(OnDay(blocks, days[n]), StartRank(cal));
      assert groups[n] == DayGroupOf(blocks, days[n], cal);
    }
  }

  ghost function KeysShown(s: seq<BlockChange>, keys: seq<string>): set<string> {
    set key | key in keys && Shown(GroupOf(s, key)).changes != []
  }

  lemma KeysShownSnoc(s: seq<BlockChange>, keys: seq<string>, key: string)
    ensures KeysShown(s, keys + [key])
         == KeysShown(s, keys) + if Shown(GroupOf(s, key)).changes != [] then {key} else {}
  {
  }

  lemma ShowingGroupsSnoc(s: seq<BlockChange>, keys: seq<string>, key: string)
    ensures |Showing(GroupsFor(s, keys + [key]))|
         == |Showing(GroupsFor(s, keys))| + if Shown(GroupOf(s, key)).changes != [] then 1 else 0
  {
    assert GroupsFor(s, keys + [key]) == GroupsFor(s, keys) + [GroupOf(s, key)];
    ShowingSnoc(GroupsFor(s, keys), GroupOf(s, key));
  }

  lemma {:induction false} ShowingCount(s: seq<BlockChange>, keys: seq<string>)
    requires forall i, j :: 0 <= i < j < |keys| ==> keys[i] != keys[j]
    ensures |Showing(GroupsFor(s, keys))| == |KeysShown(s, keys)|
  {
    if keys != [] {
      var n := |keys| - 1;
      ShowingCount(s, keys[..n]);
      ShowingGroupsSnoc(s, keys[..n], keys[n]);
      KeysShownSnoc(s, keys[..n], keys[n]);
      PrefixSnoc(keys, n);
      FullPrefix(keys);
    }
  }

  ghost predicate ReportsSomething(days: seq<DayGroup>, key: string) {
    exists net :: Reports(days, key, net)
  }

  lemma ShownWhenReported(log: seq<BlockChange>, cal: Calendar, key: string)
    requires key in KeysOf(Sorted(log))
    ensures Shown(GroupOf(Sorted(log), key)).changes != [] <==> ReportsSomething(Summary(log, cal), key)
  {
    var s := Sorted(log);
    KeysDistinct(s);
    var changes := Shown(GroupOf(s, key)).changes;
    if changes != [] {
      ShownMembers(GroupOf(s, key), changes[0]);
      ChangesMembers(RowsOf(s, key), changes[0]);
      ReportsExactlyTheNets(log, cal, key, changes[0]);
    }
    if net :| Reports(Summary(log, cal), key, net) {
      ReportsExactlyTheNets(log, cal, key, net);
      ChangesMembers(RowsOf(s, key), net);
      ShownMembers(GroupOf(s, key), net);
    }
  }

  lemma CountIsShowing(blocks: seq<BlockGroup>, cal: Calendar)
    ensures CountBlocks(DayGroups(blocks, cal)) == |blocks|
  {
    var days := DaysShown(blocks, cal);
    DaysDistinct(blocks);
    SortBySorts(DaysIn(blocks), NewestFirst(cal));
    ReorderedDistinct(DaysIn(blocks), days);
    forall b | b in blocks ensures b.day in days {
      OnDayMembers(blocks, b.day, b);
      SortMember(DaysIn(blocks), NewestFirst(cal), b.day);
    }
    CountByDay(DayGroups(blocks, cal), days, blocks, cal);
    CountOnAll(days, blocks);
  }

  /** The count shown to the user is the number of distinct blocks with something to report. */
  lemma CountIsBlocksReported(log: seq<BlockChange>, cal: Calendar)
    ensures CountBlocks(Summary(log, cal))
         == |set key | key in KeysOf(Sorted(log)) && ReportsSomething(Summary(log, cal), key)|
  {
    var s := Sorted(log);
    CountIsShowing(Showing(Groups(s)), cal);
    KeysDistinct(s);
    ShowingCount(s, KeysOf(s));
    forall key | key in KeysOf(s)
      ensures key in KeysShown(s, KeysOf(s)) <==> ReportsSomething(Summary(log, cal), key)
    {
      ShownWhenReported(log, cal, key);
    }
    assert KeysShown(s, KeysOf(s)) == set key | key in KeysOf(s) && ReportsSomething(Summary(log, cal), key);
  }

  function FirstBar(s: string): nat {
    if s == "" || s[0] == '|' then 0 else 1 + FirstBar(s[1..])
  }

  lemma {:induction false} BarEndsDay(day: string, start: string)
    requires '|' !in day
    ensures FirstBar(day + "|" + start) == |day|
  {
    if day != "" {
      assert (day + "|" + start)[1..] == day[1..] + "|" + start;
      BarEndsDay(day[1..], start);
    }
  }

  /** When no day holds a bar, two rows share a key exactly when they name the same block. */
  lemma KeyNamesBlock(c: BlockChange, d: BlockChange)
    requires '|' !in c.day && '|' !in d.day
    ensures Key(c) == Key(d) <==> c.day == d.day && c.startedAt == d.startedAt
  {
    BarEndsDay(c.day, c.startedAt);
    BarEndsDay(d.day, d.startedAt);
    if Key(c) == Key(d) {
      assert c.day == Key(c)[..|c.day|] == d.day;
      assert c.startedAt == Key(c)[|c.day| + 1..] == d.startedAt;
    }
  }
}
