/** Editing the billed hours of a line: parsing a draft, stepping it by half hours, saving it. */
module LineHours {
  import opened Text
  import opened Options

  const DAY_SECONDS := 24 * 3600
  const HALF_HOUR := 1800

  /** What a draft reads as: empty means back to the tracked hours. */
  datatype Hours = Tracked | NotHours | Seconds(value: nat)

  // ---- Parsing ----

  predicate IsDigit(c: char) {
    '0' <= c <= '9'
  }

  lemma DigitsListed(c: char)
    ensures IsDigit(c) <==> c in "0123456789"
  {
    if IsDigit(c) { assert "0123456789"[c as int - 48] == c; }
  }

  function DigitRun(s: string): (n: nat)
    ensures n <= |s|
    ensures forall i :: 0 <= i < n ==> IsDigit(s[i])
    ensures n < |s| ==> !IsDigit(s[n])
  {
    if s == "" || !IsDigit(s[0]) then 0 else 1 + DigitRun(s[1..])
  }

  function DigitValue(c: char): nat
    requires IsDigit(c)
  {
    c as int - '0' as int
  }

  function NatOf(digits: string): nat
    requires forall i :: 0 <= i < |digits| ==> IsDigit(digits[i])
  {
    if digits == "" then 0
    else 10 * NatOf(digits[..|digits| - 1]) + DigitValue(digits[|digits| - 1])
  }

  function Pow10(n: nat): (p: nat)
    ensures p > 0
  {
    if n == 0 then 1 else 10 * Pow10(n - 1)
  }

  /** `\s*h?$`, either case. */
  predicate UnitOrNothing(s: string) {
    var rest := TrimStart(s);
    rest == "" || rest == "h" || rest == "H"
  }

  /** `Math.round` of a non-negative fraction: halves go up. */
  function Round(num: nat, den: nat): nat
    requires den > 0
  {
    (2 * num + den) / (2 * den)
  }

  /** `whole` hours and `part / den` of an hour. */
  function DecimalSeconds(whole: nat, part: nat, den: nat): nat
    requires den > 0
  {
    Round(3600 * (whole * den + part), den)
  }

  /** Length of the decimal part the parser takes. */
  function DecimalRun(tail: string): (m: nat)
    ensures m > 0 ==> m < |tail| && (tail[0] == '.' || tail[0] == ',') && AllDigits(tail[1..][..m])
  {
    if tail != "" && (tail[0] == '.' || tail[0] == ',') then DigitRun(tail[1..]) else 0
  }

  /** What follows the leading digits: an optional decimal part, then the optional unit. */
  function ParseTail(whole: string, tail: string): Hours
    requires forall i :: 0 <= i < |whole| ==> IsDigit(whole[i])
  {
    var m := DecimalRun(tail);
    if m == 0 then
      if UnitOrNothing(tail) then Seconds(Round(3600 * NatOf(whole), 1)) else NotHours
    else if UnitOrNothing(tail[1 + m..]) then
      Seconds(DecimalSeconds(NatOf(whole), NatOf(tail[1..][..m]), Pow10(m)))
    else NotHours
  }

  /** The value of a decimal is `whole + part / den` hours to the nearest second, a half going up. */
  lemma DecimalIsNearest(whole: nat, part: nat, den: nat)
    requires den > 0
    ensures var r := DecimalSeconds(whole, part, den);
            den * (2 * r - 1) <= 2 * 3600 * (whole * den + part) < den * (2 * r + 1)
  {
    RoundBounds(3600 * (whole * den + part), den);
  }

  lemma RoundBounds(num: nat, den: nat)
    requires den > 0
    ensures var r := Round(num, den); den * (2 * r - 1) <= 2 * num < den * (2 * r + 1)
  {
    var n, d := 2 * num + den, 2 * den;
    var r := n / d;
    DivBounds(n, d);
    assert d * r == den * (2 * r) && den * (2 * r - 1) == den * (2 * r) - den && den * (2 * r + 1) == den * (2 * r) + den;
    assert d * (r + 1) == d * r + d;
  }

  lemma DivBounds(n: nat, d: nat)
    requires d > 0
    ensures d * (n / d) <= n < d * (n / d + 1)
  {
  }

  /** Reading digits is positional: one digit is its place after 0, and what stands before counts tenfold. */
  lemma {:induction false} DigitsArePositional(high: string, low: string)
    requires forall i :: 0 <= i < |high| ==> IsDigit(high[i])
    requires forall i :: 0 <= i < |low| ==> IsDigit(low[i])
    ensures NatOf(high + low) == NatOf(high) * Pow10(|low|) + NatOf(low)
    ensures |low| == 1 ==> NatOf(low) == low[0] as int - 48
  {
    if low == "" {
      assert high + low == high;
    } else {
      var n := |low| - 1;
      assert (high + low)[..|high + low| - 1] == high + low[..n];
      DigitsArePositional(high, low[..n]);
      Tenfold(NatOf(high), Pow10(n), NatOf(low[..n]));
    }
  }

  lemma Tenfold(a: nat, p: nat, b: nat)
    ensures 10 * (a * p + b) == a * (10 * p) + 10 * b
  {
  }

  lemma {:induction false} PowersOfTen(m: nat, n: nat)
    ensures Pow10(0) == 1 && Pow10(1) == 10 && Pow10(m + n) == Pow10(m) * Pow10(n)
  {
    if m > 0 {
      PowersOfTen(m - 1, n);
      Tenfold(Pow10(m - 1), Pow10(n), 0);
    }
  }

  /** What a draft says once trimmed. */
  function ParseHours(draft: string): Hours {
    var s := Trim(draft);
    if s == "" then Tracked
    else
      var n := DigitRun(s);
      if n == 0 then NotHours else ParseTail(s[..n], s[n..])
  }

  predicate ValidSeconds(seconds: int) {
    0 < seconds <= DAY_SECONDS && seconds % HALF_HOUR == 0
  }

  predicate ValidOverride(h: Hours) {
    h.Tracked? || (h.Seconds? && ValidSeconds(h.value))
  }

  // ---- Printing ----

  function PrintNat(n: nat): (s: string)
    ensures s != "" && forall i :: 0 <= i < |s| ==> IsDigit(s[i])
  {
    (if n < 10 then "" else PrintNat(n / 10)) + [('0' as int + n % 10) as char]
  }

  /** `String(k / 2)`. */
  function PrintHalves(k: nat): string {
    PrintNat(k / 2) + if k % 2 == 0 then "" else ".5"
  }

  lemma {:induction false} NatRoundTrip(n: nat)
    ensures NatOf(PrintNat(n)) == n
  {
    var s := PrintNat(n);
    var init := if n < 10 then "" else PrintNat(n / 10);
    assert s == init + [('0' as int + n % 10) as char];
    assert s[..|s| - 1] == init;
    if n >= 10 { NatRoundTrip(n / 10); }
  }

  lemma {:induction false} DigitRunOf(digits: string, rest: string)
    requires forall i :: 0 <= i < |digits| ==> IsDigit(digits[i])
    requires rest == "" || !IsDigit(rest[0])
    ensures DigitRun(digits + rest) == |digits|
  {
    if digits == "" {
      assert digits + rest == rest;
    } else {
      assert (digits + rest)[1..] == digits[1..] + rest;
      DigitRunOf(digits[1..], rest);
    }
  }

  lemma NothingToTrim(s: string)
    requires s != "" && !IsSpace(s[0]) && !IsSpace(s[|s| - 1])
    ensures Trim(s) == s
  {
  }

  ghost predicate AllDigits(s: string) {
    s != "" && forall i :: 0 <= i < |s| ==> IsDigit(s[i])
  }

  /** Digits alone are that many hours. */
  lemma ParseWhole(whole: string)
    requires AllDigits(whole)
    ensures ParseHours(whole) == Seconds(3600 * NatOf(whole))
  {
    NothingToTrim(whole);
    DigitRunOf(whole, "");
    assert whole + "" == whole && whole[..|whole|] == whole && whole[|whole|..] == "";
  }

  /** Digits, a point or comma, and more digits are a decimal fraction of hours, to the nearest second. */
  lemma ParseDecimal(whole: string, mark: char, part: string)
    requires AllDigits(whole) && AllDigits(part) && (mark == '.' || mark == ',')
    ensures ParseHours(whole + [mark] + part) ==
            Seconds(DecimalSeconds(NatOf(whole), NatOf(part), Pow10(|part|)))
  {
    var tail := [mark] + part;
    var s := whole + tail;
    assert s == whole + [mark] + part;
    assert s[|s| - 1] == part[|part| - 1];
    NothingToTrim(s);
    DigitRunOf(whole, tail);
    assert s[..|whole|] == whole && s[|whole|..] == tail;
    TailDecimal(whole, mark, part);
  }

  lemma TailDecimal(whole: string, mark: char, part: string)
    requires AllDigits(whole) && AllDigits(part) && (mark == '.' || mark == ',')
    ensures ParseTail(whole, [mark] + part) ==
            Seconds(DecimalSeconds(NatOf(whole), NatOf(part), Pow10(|part|)))
  {
    var tail := [mark] + part;
    DigitRunOf(part, "");
    assert tail[1..] == part == part + "";
    assert tail[1..][..|part|] == part && tail[1 + |part|..] == "";
  }

  /** Every half-hour figure the editor prints reads back as that many half hours. */
  lemma HalvesRoundTrip(k: nat)
    ensures ParseHours(PrintHalves(k)) == Seconds(HALF_HOUR * k)
  {
    var whole := PrintNat(k / 2);
    NatRoundTrip(k / 2);
    if k % 2 == 0 {
      assert whole + "" == whole;
      ParseWhole(whole);
    } else {
      assert PrintHalves(k) == whole + ['.'] + "5";
      ParseHalf(whole);
    }
  }

  // ---- Which drafts read as hours ----

  /** Optional white space, then nothing or an h. */
  ghost predicate IsUnit(s: string) {
    exists k :: UnitAt(s, k)
  }

  ghost predicate UnitAt(s: string, k: int) {
    0 <= k <= |s| && AllSpace(s[..k]) && (s[k..] == "" || s[k..] == "h" || s[k..] == "H")
  }

  /** Digits, an optional decimal part after a point or comma, and the unit or nothing; worth `v` seconds. */
  ghost predicate Reads(s: string, v: nat) {
    exists n :: 0 < n <= |s| && AllDigits(s[..n]) && ReadsTail(s[..n], s[n..], v)
  }

  ghost predicate ReadsTail(whole: string, tail: string, v: nat)
    requires AllDigits(whole)
  {
    || (IsUnit(tail) && v == 3600 * NatOf(whole))
    || exists m :: ReadsDecimal(whole, tail, m, v)
  }

  ghost predicate ReadsDecimal(whole: string, tail: string, m: int, v: nat)
    requires AllDigits(whole)
  {
    && 0 < m < |tail| && (tail[0] == '.' || tail[0] == ',') && AllDigits(tail[1..][..m])
    && IsUnit(tail[1 + m..])
    && v == DecimalSeconds(NatOf(whole), NatOf(tail[1..][..m]), Pow10(m))
  }

  lemma UnitAtStart(s: string, k: int)
    requires UnitAt(s, k)
    ensures k > 0 ==> IsSpace(s[0])
    ensures k == 0 ==> s == "" || s == "h" || s == "H"
  {
    if k > 0 { assert s[..k][0] == s[0]; } else { assert s[0..] == s; }
  }

  lemma UnitAtTail(s: string, k: int)
    requires s != "" && IsSpace(s[0]) && 0 <= k < |s|
    ensures UnitAt(s[1..], k) <==> UnitAt(s, k + 1)
  {
    assert s[1..][k..] == s[k + 1..];
    assert s[..k + 1] == [s[0]] + s[1..][..k];
    assert s[1..][..k] == s[..k + 1][1..];
  }

  lemma {:induction false} UnitShape(s: string)
    ensures UnitOrNothing(s) <==> IsUnit(s)
  {
    LettersAreNotSpace();
    if s != "" && IsSpace(s[0]) {
      UnitShape(s[1..]);
      if k :| UnitAt(s[1..], k) { UnitAtTail(s, k); }
      if k :| UnitAt(s, k) {
        UnitAtStart(s, k);
        if k > 0 { UnitAtTail(s, k - 1); }
      }
    } else {
      if k :| UnitAt(s, k) { UnitAtStart(s, k); }
      if UnitOrNothing(s) { assert s[..0] == "" && s[0..] == s && UnitAt(s, 0); }
    }
  }

  lemma LettersAreNotSpace()
    ensures !IsSpace('h') && !IsSpace('H')
  {
  }

  lemma UnitStart(tail: string)
    requires IsUnit(tail) && tail != ""
    ensures !IsDigit(tail[0]) && tail[0] != '.' && tail[0] != ','
  {
    var k :| UnitAt(tail, k);
    UnitAtStart(tail, k);
  }

  /** The decimal part of a reading is the whole run of digits after the mark. */
  lemma DecimalIsRun(whole: string, tail: string, m: int, v: nat)
    requires AllDigits(whole) && ReadsDecimal(whole, tail, m, v)
    ensures DigitRun(tail[1..]) == m && !IsUnit(tail)
  {
    var part, unit := tail[1..][..m], tail[1 + m..];
    if unit != "" { UnitStart(unit); }
    DigitRunOf(part, unit);
    assert part + unit == tail[1..];
    if IsUnit(tail) { UnitStart(tail); }
  }

  lemma PlainTail(whole: string, tail: string, v: nat)
    requires AllDigits(whole) && DecimalRun(tail) == 0
    ensures ParseTail(whole, tail) == Seconds(v) <==> ReadsTail(whole, tail, v)
  {
    UnitShape(tail);
    if m :| ReadsDecimal(whole, tail, m, v) { DecimalIsRun(whole, tail, m, v); }
  }

  lemma DecimalTail(whole: string, tail: string, v: nat)
    requires AllDigits(whole) && DecimalRun(tail) > 0
    ensures ParseTail(whole, tail) == Seconds(v) <==> ReadsTail(whole, tail, v)
  {
    var m := DecimalRun(tail);
    UnitShape(tail[1 + m..]);
    if IsUnit(tail) { UnitStart(tail); }
    if k :| ReadsDecimal(whole, tail, k, v) { DecimalIsRun(whole, tail, k, v); }
    if ParseTail(whole, tail) == Seconds(v) { assert ReadsDecimal(whole, tail, m, v); }
  }

  lemma TailShape(whole: string, tail: string, v: nat)
    requires AllDigits(whole)
    ensures ParseTail(whole, tail) == Seconds(v) <==> ReadsTail(whole, tail, v)
  {
    if DecimalRun(tail) == 0 { PlainTail(whole, tail, v); } else { DecimalTail(whole, tail, v); }
  }

  /** A draft reads as `v` seconds exactly when, trimmed, it has the form above. */
  lemma ParseShape(draft: string, v: nat)
    ensures ParseHours(draft) == Seconds(v) <==> Reads(Trim(draft), v)
    ensures ParseHours(draft).Tracked? <==> AllSpace(draft)
  {
    var s := Trim(draft);
    TrimEmpty(draft);
    var n := DigitRun(s);
    if n > 0 { TailShape(s[..n], s[n..], v); }
    if k :| 0 < k <= |s| && AllDigits(s[..k]) && ReadsTail(s[..k], s[k..], v) {
      TailStart(s[..k], s[k..], v);
      DigitRunOf(s[..k], s[k..]);
      assert s[..k] + s[k..] == s;
    }
  }

  lemma TailStart(whole: string, tail: string, v: nat)
    requires AllDigits(whole) && ReadsTail(whole, tail, v)
    ensures tail == "" || !IsDigit(tail[0])
  {
    if IsUnit(tail) && tail != "" { UnitStart(tail); }
  }

  lemma ParseHalf(whole: string)
    requires AllDigits(whole)
    ensures ParseHours(whole + ['.'] + "5") == Seconds(3600 * NatOf(whole) + HALF_HOUR)
  {
    FiveTenths();
    ParseDecimal(whole, '.', "5");
    HalfInTenths(NatOf(whole));
  }

  lemma FiveTenths()
    ensures NatOf("5") == 5 && Pow10(|"5"|) == 10
  {
    assert "5"[..0] == "";
    assert Pow10(1) == 10 * Pow10(0);
  }

  lemma HalfInTenths(n: nat)
    ensures DecimalSeconds(n, 5, 10) == 3600 * n + HALF_HOUR
  {
  }

  // ---- Stepping ----

  function Clamp(x: int): int {
    if x < HALF_HOUR then HALF_HOUR else if x > DAY_SECONDS then DAY_SECONDS else x
  }

  /** One arrow press, in seconds; `/` floors, so the ceiling is one more when off a step. */
  function StepFrom(base: int, up: bool): int {
    var steps := base / HALF_HOUR;
    var target := if base % HALF_HOUR == 0 then (if up then steps + 1 else steps - 1)
                  else if up then steps + 1 else steps;
    Clamp(target * HALF_HOUR)
  }

  /** `m` is the nearest multiple of half an hour strictly above (or below) `base`. */
  ghost predicate NextMultiple(base: int, up: bool, m: int) {
    && m % 1800 == 0 && (if up then base < m else m < base)
    && forall v :: v % 1800 == 0 && (if up then base < v else v < base) ==> if up then m <= v else v <= m
  }

  /** A valid figure is one to forty-eight half hours. */
  lemma ValidIsHalfHours(seconds: int)
    ensures ValidSeconds(seconds) <==> exists k :: 1 <= k <= 48 && seconds == k * 1800
  {
    if ValidSeconds(seconds) {
      var k := seconds / 1800;
      assert 1 <= k <= 48 && seconds == k * 1800;
    }
  }

  lemma StepIsNextMultiple(base: int, up: bool, m: int)
    requires NextMultiple(base, up, m)
    ensures StepFrom(base, up) == (if m < 1800 then 1800 else if m > 86400 then 86400 else m)
    ensures ValidSeconds(StepFrom(base, up))
  {
    var steps := base / HALF_HOUR;
    var target := if up then steps + 1 else if base % HALF_HOUR == 0 then steps - 1 else steps;
    var v := target * HALF_HOUR;
    assert v % HALF_HOUR == 0;
    assert if up then base < v else v < base;
    assert m == v by {
      var q := m / HALF_HOUR;
      assert m == q * HALF_HOUR;
    }
  }

  // ---- What to suggest ----

  datatype Message = EnterHours | MoreThanADay | Try(hours: string) | Rejected(text: string)

  function Nearest(seconds: nat): nat {
    var near := Round(seconds, HALF_HOUR) * HALF_HOUR;
    if near < HALF_HOUR then HALF_HOUR else near
  }

  function InvalidMessage(h: Hours): Message {
    if !h.Seconds? || h.value == 0 then EnterHours
    else if h.value > DAY_SECONDS then MoreThanADay
    else Try(PrintHalves(Nearest(h.value) / HALF_HOUR))
  }

  function Distance(a: int, b: int): nat {
    if a < b then b - a else a - b
  }

  lemma RoundIsNear(seconds: nat)
    ensures var r := Round(seconds, HALF_HOUR);
            2 * HALF_HOUR * r <= 2 * seconds + HALF_HOUR < 2 * HALF_HOUR * (r + 1)
  {
  }

  lemma MultipleDistance(r: int, v: int, seconds: int)
    requires 2 * HALF_HOUR * r <= 2 * seconds + HALF_HOUR < 2 * HALF_HOUR * (r + 1) && v % HALF_HOUR == 0
    ensures Distance(r * HALF_HOUR, seconds) <= Distance(v, seconds)
  {
    var q := v / HALF_HOUR;
    assert v == q * HALF_HOUR;
  }

  lemma NearestIsClosest(seconds: nat)
    requires 0 < seconds <= DAY_SECONDS
    ensures ValidSeconds(Nearest(seconds))
    ensures forall v :: ValidSeconds(v) ==> Distance(Nearest(seconds), seconds) <= Distance(v, seconds)
  {
    var near := Nearest(seconds);
    var r := Round(seconds, HALF_HOUR);
    RoundIsNear(seconds);
    forall v | ValidSeconds(v) ensures Distance(near, seconds) <= Distance(v, seconds) {
      if r > 0 { MultipleDistance(r, v, seconds); }
    }
  }

  /** The message for a draft: nothing readable or zero, more than the day, or a suggestion. */
  lemma WhichMessage(draft: string)
    ensures var m := InvalidMessage(ParseHours(draft));
            && (m == EnterHours <==> forall v :: Reads(Trim(draft), v) ==> v == 0)
            && (m == MoreThanADay <==> exists v :: Reads(Trim(draft), v) && v > 86400)
            && (m.Try? <==> exists v :: Reads(Trim(draft), v) && 0 < v <= 86400)
  {
    forall v ensures ParseHours(draft) == Seconds(v) <==> Reads(Trim(draft), v) { ParseShape(draft, v); }
    var h := ParseHours(draft);
    if h.Seconds? { assert Reads(Trim(draft), h.value); }
  }

  /** For a draft within the day the suggestion reads as a valid value, and no valid value is closer. */
  lemma SuggestionIsNearest(seconds: nat, message: Message)
    requires 0 < seconds <= DAY_SECONDS && message == InvalidMessage(Seconds(seconds))
    ensures message.Try? && ParseHours(message.hours).Seconds?
    ensures var near := ParseHours(message.hours).value;
            ValidSeconds(near) && forall v :: ValidSeconds(v) ==> Distance(near, seconds) <= Distance(v, seconds)
  {
    NearestIsClosest(seconds);
    var near := Nearest(seconds);
    assert near == HALF_HOUR * (near / HALF_HOUR);
    HalvesRoundTrip(near / HALF_HOUR);
  }

  // ---- The editor ----

  datatype Outcome = Nothing | Save(seconds: Option<int>) | Dropped(message: Message)

  /** What reaches the editor; a reply answers the save in flight, `Refresh` is the line re-read. */
  datatype EditEvent =
    | Click(figure: string)
    | Type(text: string)
    | Press(up: bool)
    | Escape
    | Leave(byKeyboard: bool)
    | Reply(error: Option<string>)
    | Refresh(effective: int, override: Option<int>)

  /** The editor's fields. */
  datatype Box = Box(
    effective: int, override: Option<int>, editing: bool, draft: string, error: Option<Message>, saving: bool)

  function SecondsOf(h: Hours): Option<int> {
    if h.Seconds? then Some(h.value) else None
  }

  function BaseOf(b: Box): int {
    var h := ParseHours(b.draft);
    if h.Seconds? then h.value else b.effective
  }

  /** What leaving the box would save, once valid: a value neither stored nor, without an override, in effect. */
  predicate Changed(b: Box) {
    var seconds := SecondsOf(ParseHours(b.draft));
    seconds != b.override && !(b.override.None? && seconds == Some(b.effective))
  }

  predicate Sends(b: Box, e: EditEvent) {
    e.Leave? && !b.saving && ValidOverride(ParseHours(b.draft)) && Changed(b)
  }

  function Closed(b: Box): Box {
    b.(editing := false, error := None)
  }

  function LeftBox(b: Box, byKeyboard: bool): Box {
    var h := ParseHours(b.draft);
    if b.saving then b
    else if !ValidOverride(h) && byKeyboard then b.(error := Some(InvalidMessage(h)))
    else if ValidOverride(h) && Changed(b) then b.(saving := true)
    else Closed(b)
  }

  function EditAfter(b: Box, e: EditEvent): Box {
    match e
    case Click(figure) => b.(draft := figure, error := None, editing := true)
    case Type(text) => b.(draft := text, error := None)
    case Press(up) => b.(draft := PrintHalves(StepFrom(BaseOf(b), up) / HALF_HOUR), error := None)
    case Escape => Closed(b)
    case Leave(byKeyboard) => LeftBox(b, byKeyboard)
    case Reply(refused) =>
      if !b.saving then b
      else if refused.None? then Closed(b).(saving := false)
      else b.(saving := false, error := Some(Rejected(refused.value)))
    case Refresh(effective, override) => b.(effective := effective, override := override)
  }

  function EditRun(b: Box, events: seq<EditEvent>): Box {
    if events == [] then b else EditAfter(EditRun(b, events[..|events| - 1]), events[|events| - 1])
  }

  /** The values a run sends: one for each leave of the box with a valid, changed draft and no save under way. */
  function SentBy(b: Box, events: seq<EditEvent>): seq<Option<int>> {
    if events == [] then []
    else
      var init := events[..|events| - 1];
      var box := EditRun(b, init);
      SentBy(b, init) + if Sends(box, events[|events| - 1]) then [SecondsOf(ParseHours(box.draft))] else []
  }

  /** What each event does to the box; leaving it is told where it is saved. */
  lemma EventsOnBox(b: Box, text: string, effective: int, override: Option<int>)
    ensures var c := EditAfter(b, Click(text));
            c.editing && c.draft == text && c.error.None? && c.saving == b.saving
    ensures var c := EditAfter(b, Type(text));
            c.editing == b.editing && c.draft == text && c.error.None? && c.saving == b.saving
    ensures var c := EditAfter(b, Escape);
            !c.editing && c.draft == b.draft && c.error.None? && c.saving == b.saving
    ensures var c := EditAfter(b, Reply(None));
            if b.saving then !c.saving && !c.editing && c.error.None? && c.draft == b.draft else c == b
    ensures var c := EditAfter(b, Reply(Some(text)));
            if b.saving then !c.saving && c.editing == b.editing && c.error == Some(Rejected(text)) && c.draft == b.draft
            else c == b
    ensures var c := EditAfter(b, Refresh(effective, override));
            c.effective == effective && c.override == override
            && c.editing == b.editing && c.draft == b.draft && c.error == b.error && c.saving == b.saving
  {
  }

  /** No event but the line's own changes what is stored. */
  lemma StoredStays(b: Box, e: EditEvent)
    requires !e.Refresh?
    ensures EditAfter(b, e).effective == b.effective && EditAfter(b, e).override == b.override
  {
  }

  class Editor {
    var effective: int
    var override: Option<int>
    var editing: bool
    var draft: string
    var error: Option<Message>
    var saving: bool

    constructor (effective: int, override: Option<int>)
      ensures this.effective == effective && this.override == override && !editing && !saving
    {
      this.effective, this.override := effective, override;
      editing, draft, error, saving := false, "", None, false;
    }

    function State(): Box
      reads this
    {
      Box(effective, override, editing, draft, error, saving)
    }

    /**
     * An arrow press: whatever the draft was, it now reads as the clamped next half hour that way,
     * which is a value that can be saved.
     */
    method Step(up: bool)
      modifies this`draft, this`error
      ensures State() == EditAfter(old(State()), Press(up))
      ensures ParseHours(draft).Seconds? && ValidOverride(ParseHours(draft))
      ensures var h := old(ParseHours(draft));
              forall m :: NextMultiple(if h.Seconds? then h.value else effective, up, m) ==>
                ParseHours(draft) == Seconds(Clamp(m))
    {
      var h := ParseHours(draft);
      var base := if h.Seconds? then h.value else effective;
      var next := StepFrom(base, up);
      StepValid(base, up);
      HalvesRoundTrip(next / HALF_HOUR);
      assert next == HALF_HOUR * (next / HALF_HOUR);
      forall m | NextMultiple(base, up, m) ensures next == Clamp(m) { StepIsNextMultiple(base, up, m); }
      draft := PrintHalves(next / HALF_HOUR);
      error := None;
    }

    method Close()
      modifies this`editing, this`error
      ensures !editing && error.None?
    {
      editing := false;
      error := None;
    }

    /**
     * Enter or leaving the box. A value is sent exactly when no save is under way and the draft is valid
     * and differs from what is stored; an invalid one stays on the keyboard with its message and is
     * dropped on a click away.
     */
    method Commit(byKeyboard: bool) returns (outcome: Outcome)
      modifies this`editing, this`error, this`saving
      ensures State() == LeftBox(old(State()), byKeyboard)
      ensures var h := ParseHours(draft);
              var seconds: Option<int> := match h case Seconds(v) => Some(v) case _ => None;
              outcome == Save(seconds) && saving && !old(saving) <==>
                && !old(saving) && ValidOverride(h) && seconds != override
                && !(override.None? && seconds == Some(effective))
      ensures outcome.Save? ==> saving && !old(saving)
      ensures !old(saving) && !ValidOverride(ParseHours(draft)) ==>
                && !saving
                && if byKeyboard then outcome == Nothing && error == Some(InvalidMessage(ParseHours(draft)))
                                        && editing == old(editing)
                   else outcome == Dropped(InvalidMessage(ParseHours(draft))) && !editing
      ensures old(saving) ==> outcome == Nothing
      ensures !old(saving) && ValidOverride(ParseHours(draft)) && !outcome.Save? ==> outcome == Nothing && !editing
    {
      if saving { return Nothing; }
      var h := ParseHours(draft);
      if !ValidOverride(h) {
        if byKeyboard {
          error := Some(InvalidMessage(h));
          return Nothing;
        }
        Close();
        return Dropped(InvalidMessage(h));
      }
      var seconds := match h case Seconds(v) => Some(v as int) case _ => None;
      if seconds == override || (override.None? && seconds == Some(effective)) {
        Close();
        return Nothing;
      }
      saving := true;
      return Save(seconds);
    }

    /** The server's answer to the save in flight. */
    method Answer(refused: Option<string>)
      requires saving
      modifies this`editing, this`error, this`saving
      ensures !saving
      ensures refused.None? ==> !editing && error.None?
      ensures refused.Some? ==> editing == old(editing) && error == Some(Rejected(refused.value))
    {
      saving := false;
      match refused {
        case None => Close();
        case Some(text) => error := Some(Rejected(text));
      }
    }

    /** One event; `sent` holds the value it sends, if any. A reply with nothing in flight is passed over. */
    method Perform(e: EditEvent) returns (sent: seq<Option<int>>)
      modifies this
      ensures State() == EditAfter(old(State()), e)
      ensures sent == if Sends(old(State()), e) then [SecondsOf(ParseHours(old(draft)))] else []
    {
      sent := [];
      match e {
        case Click(figure) => draft, error, editing := figure, None, true;
        case Type(text) => draft, error := text, None;
        case Press(up) => Step(up);
        case Escape => Close();
        case Leave(byKeyboard) =>
          var outcome := Commit(byKeyboard);
          if outcome.Save? { sent := [outcome.seconds]; }
        case Reply(refused) => if saving { Answer(refused); }
        case Refresh(seconds, stored) => effective, override := seconds, stored;
      }
    }

    /**
     * Any run of events. The values sent are those of the leaves with a valid, changed draft and no save
     * under way; `saving` holds exactly while one save is in flight, never two. A reply with nothing in
     * flight does not occur and is passed over.
     */
    method Replay(events: seq<EditEvent>) returns (sent: seq<Option<int>>, answered: nat)
      requires !saving
      modifies this
      ensures State() == EditRun(old(State()), events) && sent == SentBy(old(State()), events)
      ensures answered <= |sent| <= answered + 1
      ensures saving <==> |sent| == answered + 1
      ensures forall v :: v in sent ==> v.None? || ValidSeconds(v.value)
    {
      sent, answered := [], 0;
      ghost var start := State();
      for n := 0 to |events|
        invariant State() == EditRun(start, events[..n]) && sent == SentBy(start, events[..n])
        invariant answered <= |sent| <= answered + 1
        invariant saving <==> |sent| == answered + 1
        invariant forall v :: v in sent ==> v.None? || ValidSeconds(v.value)
      {
        assert events[..n + 1][..n] == events[..n];
        SavingTurns(State(), events[n]);
        if events[n].Reply? && saving { answered := answered + 1; }
        var more := Perform(events[n]);
        sent := sent + more;
      }
      assert events[..|events|] == events;
    }
  }

  /** `saving` is set by sending and cleared by a reply, and by nothing else. */
  lemma SavingTurns(b: Box, e: EditEvent)
    ensures EditAfter(b, e).saving <==> Sends(b, e) || (b.saving && !e.Reply?)
    ensures Sends(b, e) ==> !b.saving && ValidOverride(ParseHours(b.draft))
  {
  }

  lemma StepValid(base: int, up: bool)
    ensures ValidSeconds(StepFrom(base, up))
  {
    var steps := base / HALF_HOUR;
    assert forall t: int :: (t * HALF_HOUR) % HALF_HOUR == 0;
  }

  /** There is always a next multiple, so the step's promise is never empty. */
  lemma NextMultipleExists(base: int, up: bool) returns (m: int)
    ensures NextMultiple(base, up, m)
  {
    var steps := base / HALF_HOUR;
    m := (if up then steps + 1 else if base % HALF_HOUR == 0 then steps - 1 else steps) * HALF_HOUR;
    forall v | v % HALF_HOUR == 0 && (if up then base < v else v < base) ensures if up then m <= v else v <= m {
      var q := v / HALF_HOUR;
      assert v == q * HALF_HOUR;
    }
  }
}
