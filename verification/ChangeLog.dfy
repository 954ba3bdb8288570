/** Folding the raw change log into one net change per block and kind. */
module ChangeLog {
  import opened Text
  import opened Options
  import opened Seqs
  import opened Sorting

  datatype Field = Customer | Deild | Split | Description

  datatype Author = Claude | Verdict | Keyword | Rebuild | User

  datatype BlockChange = BlockChange(
    id: int, day: string, startedAt: string, field: Field,
    before: Option<string>, after: Option<string>, source: Author)

  datatype ChangeKind = DescriptionKind | BillingKind

  datatype NetChange = NetChange(
    kind: ChangeKind, before: Option<string>, after: Option<string>, sources: seq<Author>)

  datatype BlockGroup = BlockGroup(day: string, startedAt: string, changes: seq<NetChange>)

  datatype DayGroup = DayGroup(day: string, blocks: seq<BlockGroup>)

  /** `Date.parse` of a start time and the place of a day in `localeCompare` order. */
  datatype Calendar = Calendar(instant: string -> int, dayOrder: string -> int)

  function KindOf(c: BlockChange): ChangeKind {
    if c.field == Description then DescriptionKind else BillingKind
  }

  /** Missing and white space only are the same: no value. */
  function Blank(v: Option<string>): Option<string> {
    if v.None? || Trim(v.value) == "" then None else v
  }

  function Key(c: BlockChange): string {
    c.day + "|" + c.startedAt
  }

  function IdRank(): BlockChange -> Rank {
    (c: BlockChange) => Rank(c.id, 0)
  }

  function KindRank(): NetChange -> Rank {
    (n: NetChange) => Rank(if n.kind == DescriptionKind then 0 else 1, 0)
  }

  function StartRank(cal: Calendar): BlockGroup -> Rank {
    (b: BlockGroup) => Rank(cal.instant(b.startedAt), 0)
  }

  function NewestFirst(cal: Calendar): string -> Rank {
    (d: string) => Rank(-cal.dayOrder(d), 0)
  }

  // ---- What the fold computes, said without folding ----

  /** The rows of one block. */
  function RowsOf(s: seq<BlockChange>, key: string): seq<BlockChange> {
    if s == [] then []
    else RowsOf(s[..|s| - 1], key) + if Key(s[|s| - 1]) == key then [s[|s| - 1]] else []
  }

  function OfKind(rows: seq<BlockChange>, kind: ChangeKind): seq<BlockChange> {
    if rows == [] then []
    else OfKind(rows[..|rows| - 1], kind) + if KindOf(rows[|rows| - 1]) == kind then [rows[|rows| - 1]] else []
  }

  /** Distinct block keys, in order of first appearance. */
  function KeysOf(s: seq<BlockChange>): seq<string> {
    if s == [] then []
    else
      var keys, key := KeysOf(s[..|s| - 1]), Key(s[|s| - 1]);
      if key in keys then keys else keys + [key]
  }

  function KindsOf(rows: seq<BlockChange>): seq<ChangeKind> {
    if rows == [] then []
    else
      var kinds, kind := KindsOf(rows[..|rows| - 1]), KindOf(rows[|rows| - 1]);
      if kind in kinds then kinds else kinds + [kind]
  }

  function Authors(rows: seq<BlockChange>): seq<Author> {
    if rows == [] then [] else Authors(rows[..|rows| - 1]) + [rows[|rows| - 1].source]
  }

  /** Each author once, placed where they last appear. */
  function ByLastTouch(authors: seq<Author>): seq<Author> {
    if authors == [] then []
    else (if authors[0] in authors[1..] then [] else [authors[0]]) + ByLastTouch(authors[1..])
  }

  /** First old, last new, over the rows of one block and kind. */
  function NetOf(rows: seq<BlockChange>, kind: ChangeKind): NetChange {
    if rows == [] then NetChange(kind, None, None, [])
    else NetChange(kind, Blank(rows[0].before), Blank(rows[|rows| - 1].after), ByLastTouch(Authors(rows)))
  }

  function ChangesOf(rows: seq<BlockChange>): seq<NetChange> {
    var kinds := KindsOf(rows);
    seq(|kinds|, i requires 0 <= i < |kinds| => NetOf(OfKind(rows, kinds[i]), kinds[i]))
  }

  function GroupOf(s: seq<BlockChange>, key: string): BlockGroup {
    var rows := RowsOf(s, key);
    if rows == [] then BlockGroup("", "", [])
    else BlockGroup(rows[0].day, rows[0].startedAt, ChangesOf(rows))
  }

  // ---- First pass: the fold ----

  function FindKind(changes: seq<NetChange>, kind: ChangeKind): (at: nat)
    ensures at <= |changes|
    ensures at < |changes| ==> changes[at].kind == kind
    ensures forall i :: 0 <= i < at ==> changes[i].kind != kind
  {
    if changes == [] || changes[0].kind == kind then 0 else 1 + FindKind(changes[1..], kind)
  }

  function Without(authors: seq<Author>, a: Author): seq<Author> {
    if authors == [] then [] else (if authors[0] == a then [] else [authors[0]]) + Without(authors[1..], a)
  }

  function Fresh(c: BlockChange): NetChange {
    NetChange(KindOf(c), Blank(c.before), Blank(c.after), [c.source])
  }

  function Touched(net: NetChange, c: BlockChange): NetChange {
    net.(after := Blank(c.after), sources := Without(net.sources, c.source) + [c.source])
  }

  lemma LastTouchCons(x: Author, rest: seq<Author>)
    ensures ByLastTouch([x] + rest) == if x in rest then ByLastTouch(rest) else [x] + ByLastTouch(rest)
  {
    assert ([x] + rest)[1..] == rest;
    assert [] + ByLastTouch(rest) == ByLastTouch(rest);
  }

  lemma WithoutCons(x: Author, rest: seq<Author>, a: Author)
    ensures Without([x] + rest, a) == if x == a then Without(rest, a) else [x] + Without(rest, a)
  {
    assert ([x] + rest)[1..] == rest;
    assert [] + Without(rest, a) == Without(rest, a);
  }

  lemma {:induction false} ByLastTouchSnoc(authors: seq<Author>, a: Author)
    ensures ByLastTouch(authors + [a]) == Without(ByLastTouch(authors), a) + [a]
  {
    if authors == [] {
      LastTouchCons(a, []);
      assert [] + [a] == [a] + [];
    } else {
      var x, rest := authors[0], authors[1..];
      ByLastTouchSnoc(rest, a);
      LastTouchCons(x, rest);
      LastTouchCons(x, rest + [a]);
      WithoutCons(x, ByLastTouch(rest), a);
      assert authors == [x] + rest;
      Assoc([x], rest, [a]);
      Assoc([x], Without(ByLastTouch(rest), a), [a]);
    }
  }

  lemma {:induction false} KindsDistinct(rows: seq<BlockChange>)
    ensures forall i, j :: 0 <= i < j < |KindsOf(rows)| ==> KindsOf(rows)[i] != KindsOf(rows)[j]
    ensures forall kind :: kind in KindsOf(rows) <==> OfKind(rows, kind) != []
  {
    if rows != [] { KindsDistinct(rows[..|rows| - 1]); }
  }

  lemma OfKindSnoc(rows: seq<BlockChange>, c: BlockChange, kind: ChangeKind)
    ensures OfKind(rows + [c], kind) == OfKind(rows, kind) + if KindOf(c) == kind then [c] else []
  {
    assert (rows + [c])[..|rows|] == rows;
  }

  lemma NetSnoc(rows: seq<BlockChange>, c: BlockChange, kind: ChangeKind)
    requires kind == KindOf(c)
    ensures NetOf(rows + [c], kind) == if rows == [] then Fresh(c) else Touched(NetOf(rows, kind), c)
  {
    assert (rows + [c])[..|rows|] == rows;
    ByLastTouchSnoc(Authors(rows), c.source);
    if rows == [] {
      assert [] + [c.source] == [c.source];
      assert [c.source][1..] == [];
    }
  }

  lemma KindsSnoc(rows: seq<BlockChange>, c: BlockChange)
    ensures KindsOf(rows + [c]) == KindsOf(rows) + if KindOf(c) in KindsOf(rows) then [] else [KindOf(c)]
  {
    assert (rows + [c])[..|rows|] == rows;
    assert KindsOf(rows) + [] == KindsOf(rows);
  }

  lemma NetOfKindSnoc(rows: seq<BlockChange>, c: BlockChange, kind: ChangeKind)
    ensures NetOf(OfKind(rows + [c], kind), kind) ==
            var old_ := OfKind(rows, kind);
            var net := NetOf(old_, kind);
            if kind != KindOf(c) then net else if old_ == [] then Fresh(c) else Touched(net, c)
  {
    OfKindSnoc(rows, c, kind);
    assert OfKind(rows, kind) + [] == OfKind(rows, kind);
    if kind == KindOf(c) { NetSnoc(OfKind(rows, kind), c, kind); }
  }

  lemma FindKindFinds(rows: seq<BlockChange>, kind: ChangeKind)
    ensures var at, kinds := FindKind(ChangesOf(rows), kind), KindsOf(rows);
            if kind in kinds then at < |kinds| && kinds[at] == kind else at == |kinds|
  {
    var changes, kinds := ChangesOf(rows), KindsOf(rows);
    assert forall i :: 0 <= i < |kinds| ==> changes[i].kind == kinds[i];
  }

  lemma ChangeAt(rows: seq<BlockChange>, i: nat)
    requires i < |KindsOf(rows)|
    ensures |ChangesOf(rows)| == |KindsOf(rows)|
    ensures ChangesOf(rows)[i] == NetOf(OfKind(rows, KindsOf(rows)[i]), KindsOf(rows)[i])
  {
  }

  /** What one more row does to the net of a kind already present. */
  lemma ChangeAtSnoc(rows: seq<BlockChange>, c: BlockChange, i: nat)
    requires i < |KindsOf(rows)|
    ensures i < |ChangesOf(rows + [c])| && i < |ChangesOf(rows)|
    ensures ChangesOf(rows + [c])[i] ==
            if KindsOf(rows)[i] == KindOf(c) then Touched(ChangesOf(rows)[i], c) else ChangesOf(rows)[i]
  {
    KindsSnoc(rows, c);
    KindsDistinct(rows);
    assert KindsOf(rows + [c])[i] == KindsOf(rows)[i];
    ChangeAt(rows + [c], i);
    ChangeAt(rows, i);
    NetOfKindSnoc(rows, c, KindsOf(rows)[i]);
  }

  lemma NewKindSnoc(rows: seq<BlockChange>, c: BlockChange)
    requires KindOf(c) !in KindsOf(rows)
    ensures |ChangesOf(rows + [c])| == |KindsOf(rows)| + 1
    ensures ChangesOf(rows + [c])[|KindsOf(rows)|] == Fresh(c)
  {
    KindsSnoc(rows, c);
    KindsDistinct(rows);
    assert KindsOf(rows + [c])[|KindsOf(rows)|] == KindOf(c);
    ChangeAt(rows + [c], |KindsOf(rows)|);
    NetOfKindSnoc(rows, c, KindOf(c));
  }

  /** One more row of a block touches the net of its kind and leaves the others alone. */
  lemma ChangesSnoc(rows: seq<BlockChange>, c: BlockChange)
    ensures var changes := ChangesOf(rows);
            var at := FindKind(changes, KindOf(c));
            ChangesOf(rows + [c]) ==
              if at == |changes| then changes + [Fresh(c)] else changes[at := Touched(changes[at], c)]
  {
    var changes, next, kinds := ChangesOf(rows), ChangesOf(rows + [c]), KindsOf(rows);
    KindsSnoc(rows, c);
    FindKindFinds(rows, KindOf(c));
    KindsDistinct(rows);
    forall i | 0 <= i < |kinds|
      ensures next[i] == if kinds[i] == KindOf(c) then Touched(changes[i], c) else changes[i]
    {
      ChangeAtSnoc(rows, c, i);
    }
    if KindOf(c) !in kinds { NewKindSnoc(rows, c); }
  }

  lemma KeysSnoc(s: seq<BlockChange>, c: BlockChange)
    ensures KeysOf(s + [c]) == KeysOf(s) + if Key(c) in KeysOf(s) then [] else [Key(c)]
  {
    assert (s + [c])[..|s|] == s;
    assert KeysOf(s) + [] == KeysOf(s);
  }

  lemma {:induction false} KeysDistinct(s: seq<BlockChange>)
    ensures forall i, j :: 0 <= i < j < |KeysOf(s)| ==> KeysOf(s)[i] != KeysOf(s)[j]
    ensures forall key :: key in KeysOf(s) <==> RowsOf(s, key) != []
  {
    if s != [] { KeysDistinct(s[..|s| - 1]); }
  }

  /** One more row changes the group of its own block only. */
  lemma GroupSnoc(s: seq<BlockChange>, c: BlockChange, key: string)
    ensures GroupOf(s + [c], key) ==
            var group := GroupOf(s, key);
            if Key(c) != key then group
            else if RowsOf(s, key) == [] then BlockGroup(c.day, c.startedAt, [Fresh(c)])
            else
              var at := FindKind(group.changes, KindOf(c));
              group.(changes :=
                if at == |group.changes| then group.changes + [Fresh(c)]
                else group.changes[at := Touched(group.changes[at], c)])
  {
    var rows := RowsOf(s, key);
    assert (s + [c])[..|s|] == s;
    assert rows + [] == rows;
    if Key(c) == key {
      ChangesSnoc(rows, c);
      if rows == [] { assert ChangesOf(rows) == [] && [] + [Fresh(c)] == [Fresh(c)]; }
    }
  }

  /** The first pass: rows in id order folded into one group per block, groups in order of first touch. */
  method Fold(sorted: seq<BlockChange>) returns (order: seq<string>, blocks: map<string, BlockGroup>)
    ensures order == KeysOf(sorted)
    ensures forall key :: key in blocks <==> key in order
    ensures forall key :: key in blocks ==> blocks[key] == GroupOf(sorted, key)
  {
    order, blocks := [], map[];
    for n := 0 to |sorted|
      invariant order == KeysOf(sorted[..n])
      invariant forall key :: key in blocks <==> key in order
      invariant forall key :: key in blocks ==> blocks[key] == GroupOf(sorted[..n], key)
    {
      var c := sorted[n];
      PrefixSnoc(sorted, n);
      KeysSnoc(sorted[..n], c);
      KeysDistinct(sorted[..n]);
      var key := Key(c);
      if key !in blocks {
        blocks := blocks[key := BlockGroup(c.day, c.startedAt, [])];
        order := order + [key];
      }
      var block := blocks[key];
      var at := FindKind(block.changes, KindOf(c));
      if at == |block.changes| {
        blocks := blocks[key := block.(changes := block.changes + [Fresh(c)])];
      } else {
        blocks := blocks[key := block.(changes := block.changes[at := Touched(block.changes[at], c)])];
      }
      forall k | k in blocks ensures blocks[k] == GroupOf(sorted[..n + 1], k) {
        GroupSnoc(sorted[..n], c, k);
      }
    }
    FullPrefix(sorted);
  }

  // ---- Second pass: drop what cancelled out, group by day, order ----

  function Differing(nets: seq<NetChange>): seq<NetChange> {
    if nets == [] then []
    else
      var last := nets[|nets| - 1];
      Differing(nets[..|nets| - 1]) + if last.before != last.after then [last] else []
  }

  /** A block with only its real changes, description first. */
  function Shown(b: BlockGroup): BlockGroup {
    b.(changes := SortBy(Differing(b.changes), KindRank()))
  }

  function Showing(groups: seq<BlockGroup>): seq<BlockGroup> {
    if groups == [] then []
    else
      var last := Shown(groups[|groups| - 1]);
      Showing(groups[..|groups| - 1]) + if last.changes == [] then [] else [last]
  }

  function DaysIn(blocks: seq<BlockGroup>): seq<string> {
    if blocks == [] then []
    else
      var days, day := DaysIn(blocks[..|blocks| - 1]), blocks[|blocks| - 1].day;
      if day in days then days else days + [day]
  }

  function OnDay(blocks: seq<BlockGroup>, day: string): seq<BlockGroup> {
    if blocks == [] then []
    else
      var last := blocks[|blocks| - 1];
      OnDay(blocks[..|blocks| - 1], day) + if last.day == day then [last] else []
  }

  function DayGroupOf(blocks: seq<BlockGroup>, day: string, cal: Calendar): DayGroup {
    DayGroup(day, SortBy(OnDay(blocks, day), StartRank(cal)))
  }

  function DayGroups(blocks: seq<BlockGroup>, cal: Calendar): seq<DayGroup> {
    var days := SortBy(DaysIn(blocks), NewestFirst(cal));
    seq(|days|, i requires 0 <= i < |days| => DayGroupOf(blocks, days[i], cal))
  }

  function GroupsFor(s: seq<BlockChange>, keys: seq<string>): seq<BlockGroup> {
    seq(|keys|, i requires 0 <= i < |keys| => GroupOf(s, keys[i]))
  }

  function Groups(s: seq<BlockChange>): seq<BlockGroup> {
    GroupsFor(s, KeysOf(s))
  }

  /** The whole summary, as a function of the log. */
  function Summary(changes: seq<BlockChange>, cal: Calendar): seq<DayGroup> {
    DayGroups(Showing(Groups(SortBy(changes, IdRank()))), cal)
  }

  lemma ShowingSnoc(groups: seq<BlockGroup>, b: BlockGroup)
    ensures Showing(groups + [b]) == Showing(groups) + if Shown(b).changes == [] then [] else [Shown(b)]
  {
    assert (groups + [b])[..|groups|] == groups;
  }

  lemma OnDaySnoc(blocks: seq<BlockGroup>, b: BlockGroup, day: string)
    ensures OnDay(blocks + [b], day) == OnDay(blocks, day) + if b.day == day then [b] else []
    ensures DaysIn(blocks + [b]) == DaysIn(blocks) + if b.day in DaysIn(blocks) then [] else [b.day]
  {
    assert (blocks + [b])[..|blocks|] == blocks;
    assert DaysIn(blocks) + [] == DaysIn(blocks);
  }

  lemma {:induction false} DaysDistinct(blocks: seq<BlockGroup>)
    ensures forall i, j :: 0 <= i < j < |DaysIn(blocks)| ==> DaysIn(blocks)[i] != DaysIn(blocks)[j]
    ensures forall day :: day in DaysIn(blocks) <==> OnDay(blocks, day) != []
  {
    if blocks != [] { DaysDistinct(blocks[..|blocks| - 1]); }
  }

  method GroupByDay(groups: seq<BlockGroup>) returns (order: seq<string>, days: map<string, seq<BlockGroup>>)
    ensures order == DaysIn(Showing(groups))
    ensures forall day :: day in days <==> day in order
    ensures forall day :: day in days ==> days[day] == OnDay(Showing(groups), day)
  {
    order, days := [], map[];
    ghost var shown: seq<BlockGroup> := [];
    for n := 0 to |groups|
      invariant shown == Showing(groups[..n]) && order == DaysIn(shown)
      invariant forall day :: day in days <==> day in order
      invariant forall day :: day in days ==> days[day] == OnDay(shown, day)
    {
      PrefixSnoc(groups, n);
      ShowingSnoc(groups[..n], groups[n]);
      var block := groups[n].(changes := SortBy(Differing(groups[n].changes), KindRank()));
      if block.changes == [] { continue; }
      DaysDistinct(shown);
      forall day { OnDaySnoc(shown, block, day); }
      if block.day !in days { order := order + [block.day]; }
      days := days[block.day := (if block.day in days then days[block.day] else []) + [block]];
      shown := shown + [block];
    }
    FullPrefix(groups);
  }

  /** Both passes, then days and each day's blocks put in order. */
  method Summarise(changes: seq<BlockChange>, cal: Calendar) returns (result: seq<DayGroup>)
    ensures result == Summary(changes, cal)
  {
    var sorted := SortBy(changes, IdRank());
    var order, blocks := Fold(sorted);
    var groups := ValuesInOrder(order, blocks);
    GroupsFolded(sorted, order, blocks);
    var dayOrder, days := GroupByDay(groups);
    result := OrderDays(dayOrder, days, cal);
    DaysOrdered(Showing(groups), dayOrder, days, cal, result);
  }

  lemma GroupsFolded(sorted: seq<BlockChange>, order: seq<string>, blocks: map<string, BlockGroup>)
    requires order == KeysOf(sorted) && forall key :: key in order ==> key in blocks
    requires forall key :: key in blocks ==> blocks[key] == GroupOf(sorted, key)
    ensures ValuesInOrder(order, blocks) == Groups(sorted)
  {
  }

  lemma DaysOrdered(
    shown: seq<BlockGroup>, order: seq<string>, days: map<string, seq<BlockGroup>>, cal: Calendar, result: seq<DayGroup>)
    requires order == DaysIn(shown) && forall day :: day in order ==> day in days
    requires forall day :: day in days ==> days[day] == OnDay(shown, day)
    requires |result| == |SortBy(order, NewestFirst(cal))|
    requires forall i :: 0 <= i < |result| ==>
               var day := SortBy(order, NewestFirst(cal))[i];
               day in days && result[i] == DayGroup(day, SortBy(days[day], StartRank(cal)))
    ensures result == DayGroups(shown, cal)
  {
  }

  /** The values of an insertion-ordered map. */
  function ValuesInOrder<V>(order: seq<string>, m: map<string, V>): seq<V>
    requires forall k :: k in order ==> k in m
  {
    seq(|order|, i requires 0 <= i < |order| => m[order[i]])
  }

  method OrderDays(order: seq<string>, days: map<string, seq<BlockGroup>>, cal: Calendar) returns (result: seq<DayGroup>)
    requires forall day :: day in order ==> day in days
    ensures var newest := SortBy(order, NewestFirst(cal));
            && |result| == |newest|
            && (forall i :: 0 <= i < |newest| ==> newest[i] in days)
            && forall i :: 0 <= i < |newest| ==>
                 result[i] == DayGroup(newest[i], SortBy(days[newest[i]], StartRank(cal)))
  {
    var newest := SortBy(order, NewestFirst(cal));
    result := [];
    for n := 0 to |newest|
      invariant |result| == n
      invariant forall i :: 0 <= i < n ==> newest[i] in days
      invariant forall i :: 0 <= i < n ==>
                  result[i] == DayGroup(newest[i], SortBy(days[newest[i]], StartRank(cal)))
    {
      SortMember(order, NewestFirst(cal), newest[n]);
      result := result + [DayGroup(newest[n], SortBy(days[newest[n]], StartRank(cal)))];
    }
  }
}
