/** The range list of src/App.jsx: the stored availabilities with their ids,
    adding a range picked on the grid (capacity cap, overlap check, append
    with a fresh id), deleting by id, loading a shared state, the day index
    of a local date, the sorted list view and the time label. */
module App {
  import opened Prelude
  import opened Civil
  import opened Time
  import Share
  import Base64Url

  /** A stored range: `{id, startUtc, endUtc}`. */
  datatype Availability = Availability(id: int, startUtc: Instant, endUtc: Instant)

  // ---------------------------------------------------------------------
  // Invariants of the list

  /** Every two entries, earlier first, are related by `rel`. */
  predicate Pairwise(list: seq<Availability>, rel: (Availability, Availability) -> bool) {
    forall i, j :: 0 <= i < j < |list| ==> rel(list[i], list[j])
  }

  function Apart(a: Availability, b: Availability): bool {
    !Overlaps(a.startUtc, a.endUtc, b.startUtc, b.endUtc)
  }

  function IdsDiffer(a: Availability, b: Availability): bool {
    a.id != b.id
  }

  /** No two stored ranges overlap. */
  predicate NonOverlapping(list: seq<Availability>) {
    Pairwise(list, Apart)
  }

  /** No two stored ranges share an id. */
  predicate DistinctIds(list: seq<Availability>) {
    Pairwise(list, IdsDiffer)
  }

  /** Every stored id was handed out before the counter reached `counter`. */
  predicate IdsBelow(list: seq<Availability>, counter: int) {
    forall i :: 0 <= i < |list| ==> list[i].id < counter
  }

  // ---------------------------------------------------------------------
  // addRange: the requested span

  /** Local wall-clock start and end of a selection of grid rows. */
  datatype LocalSpan = LocalSpan(startH: int, startM: int, endH: int, endM: int)

  /** Rows `startSlot..endSlot` as the hours and minutes addRange passes to
      localToUtc: `Math.floor(min / 60)` and `min % 60`. */
  function RequestedSpan(startSlot: int, endSlot: int): LocalSpan {
    var startMin := startSlot * 30;
    var endMin := (endSlot + 1) * 30;
    LocalSpan(startMin / 60, JsRem(startMin, 60), endMin / 60, JsRem(endMin, 60))
  }

  /** For rows `startSlot <= endSlot` of the 48-row grid, the requested
      local span is `[startSlot * 30, (endSlot + 1) * 30)` minutes of the day,
      a positive multiple of 30; hours and minutes are in range, except that
      the last row ends at hour 24, minute 0. */
  lemma RequestedSpanMinutes(startSlot: int, endSlot: int)
    requires 0 <= startSlot <= endSlot < 48
    ensures var w := RequestedSpan(startSlot, endSlot);
            && MinutesOfDay(w.startH, w.startM) == startSlot * 30
            && MinutesOfDay(w.endH, w.endM) == (endSlot + 1) * 30
            && 0 <= w.startH < 24 && 0 <= w.startM < 60 && 0 <= w.endM < 60
            && (endSlot < 47 ==> w.endH < 24)
            && (endSlot == 47 <==> w.endH == 24 && w.endM == 0)
    ensures var w := RequestedSpan(startSlot, endSlot);
            var len := MinutesOfDay(w.endH, w.endM) - MinutesOfDay(w.startH, w.startM);
            len > 0 && len % 30 == 0
  {
    HalfHours(startSlot);
    HalfHours(endSlot + 1);
  }

  /** Row boundary `n` is hour `n / 2`, minute 0 or 30 by parity. */
  lemma HalfHours(n: nat)
    ensures (n * 30) / 60 == n / 2 && JsRem(n * 30, 60) == 30 * (n % 2)
  {
    var q, r := n / 2, n % 2;
    assert n == 2 * q + r && 0 <= r < 2;
    assert n * 30 == 60 * q + 30 * r;
  }

  /** The instants addRange computes for the local span `w` on date
      `y`-`m`-`d` (month 1-based, day possibly past the month's end), by
      localToUtc. */
  function CandidateStart(zone: TimeZone, y: int, m: int, d: int, w: LocalSpan): Instant {
    LocalToUtcResult(zone, y, m, d, w.startH, w.startM)
  }

  function CandidateEnd(zone: TimeZone, y: int, m: int, d: int, w: LocalSpan): Instant {
    LocalToUtcResult(zone, y, m, d, w.endH, w.endM)
  }

  /** A selection ending on the last row ends at the next day's local
      midnight: Date.UTC carries hour 24 into the next day. */
  lemma CandidateLastRow(zone: TimeZone, y: int, m: int, d: int, startSlot: int)
    requires 0 <= startSlot <= 47
    ensures CandidateEnd(zone, y, m, d, RequestedSpan(startSlot, 47)) == LocalToUtcResult(zone, y, m, d + 1, 0, 0)
  {
    RequestedSpanMinutes(startSlot, 47);
    LocalToUtcHour24(zone, y, m, d);
  }

  /** In a zone with a fixed offset, two wall-clock times of one day convert
      to instants their minute-of-day distance apart. */
  lemma FixedOffsetDistance(zone: TimeZone, k: int, y: int, m: int, d: int, h1: int, m1: int, h2: int, m2: int)
    requires FixedOffsetZone(zone, k)
    requires GuessesReadable(zone, k, y, m, d, h1, m1) && GuessesReadable(zone, k, y, m, d, h2, m2)
    ensures LocalToUtcResult(zone, y, m, d, h2, m2) - LocalToUtcResult(zone, y, m, d, h1, m1)
            == (MinutesOfDay(h2, m2) - MinutesOfDay(h1, m1)) * MsPerMinute
  {
    LocalToUtcFixedOffset(zone, k, y, m, d, h1, m1);
    LocalToUtcFixedOffset(zone, k, y, m, d, h2, m2);
  }

  /** In a zone with a fixed offset the candidate spans exactly the selected
      rows: `(endSlot + 1 - startSlot) * 30` minutes, so it is never empty. */
  lemma CandidateLengthFixedOffset(zone: TimeZone, k: int, y: int, m: int, d: int, startSlot: int, endSlot: int)
    requires FixedOffsetZone(zone, k)
    requires 0 <= startSlot <= endSlot < 48
    requires var w := RequestedSpan(startSlot, endSlot);
             GuessesReadable(zone, k, y, m, d, w.startH, w.startM) && GuessesReadable(zone, k, y, m, d, w.endH, w.endM)
    ensures var w := RequestedSpan(startSlot, endSlot);
            CandidateEnd(zone, y, m, d, w) - CandidateStart(zone, y, m, d, w) == (endSlot + 1 - startSlot) * 30 * MsPerMinute
  {
    var w := RequestedSpan(startSlot, endSlot);
    var len := MinutesOfDay(w.endH, w.endM) - MinutesOfDay(w.startH, w.startM);
    assert len == (endSlot + 1 - startSlot) * 30 by {
      RequestedSpanMinutes(startSlot, endSlot);
    }
    assert CandidateEnd(zone, y, m, d, w) - CandidateStart(zone, y, m, d, w) == len * MsPerMinute by {
      FixedOffsetDistance(zone, k, y, m, d, w.startH, w.startM, w.endH, w.endM);
    }
  }

  /** Rows 18..19 of Monday 2025-01-06 in UTC+1, 09:00 to 10:00 local,
      give a candidate of exactly one hour. */
  lemma CandidateLengthUtcPlusOne()
    ensures var w := RequestedSpan(18, 19);
            CandidateEnd(UtcPlusOne, 2025, 1, 6, w) - CandidateStart(UtcPlusOne, 2025, 1, 6, w) == 60 * MsPerMinute
  {
    var w := RequestedSpan(18, 19);
    assert w.startH == 9 && w.startM == 0 && w.endH == 10 && w.endM == 0;
    UtcPlusOneFixed();
    UtcPlusOneReadable(2025, 1, 6, 9, 0);
    UtcPlusOneReadable(2025, 1, 6, 10, 0);
    CandidateLengthFixedOffset(UtcPlusOne, 60, 2025, 1, 6, 18, 19);
  }

  /** The range addRange asks for: rows `startSlot..endSlot` on the local
      date `y`-`m`-`d`. */
  function Request(zone: TimeZone, y: int, m: int, d: int, startSlot: int, endSlot: int): Share.Span {
    var w := RequestedSpan(startSlot, endSlot);
    Share.Span(CandidateStart(zone, y, m, d, w), CandidateEnd(zone, y, m, d, w))
  }

  /** The range addRange asks for in `zone`: rows `startSlot..endSlot` on
      the date `dayIndex` days after `mondayLocal`, the local date of the
      anchor. */
  function RequestIn(zone: TimeZone, dayIndex: int, startSlot: int, endSlot: int): Share.Span {
    var monday := LocalParts(zone, RefMondayUtc);
    Request(zone, monday.year, monday.month, monday.day + dayIndex, startSlot, endSlot)
  }

  method CandidateIn(zone: TimeZone, dayIndex: int, startSlot: int, endSlot: int) returns (s: Instant, e: Instant)
    ensures Share.Span(s, e) == RequestIn(zone, dayIndex, startSlot, endSlot)
  {
    var monday := LocalParts(zone, RefMondayUtc);
    var d := monday.day + dayIndex;
    assert RequestIn(zone, dayIndex, startSlot, endSlot) == Request(zone, monday.year, monday.month, d, startSlot, endSlot);
    s, e := Candidate(zone, monday.year, monday.month, d, startSlot, endSlot);
  }

  /** The two localToUtc calls of addRange. */
  method Candidate(zone: TimeZone, y: int, m: int, d: int, startSlot: int, endSlot: int) returns (s: Instant, e: Instant)
    ensures Share.Span(s, e) == Request(zone, y, m, d, startSlot, endSlot)
  {
    var w := RequestedSpan(startSlot, endSlot);
    s := LocalToUtc(zone, y, m, d, w.startH, w.startM);
    e := LocalToUtc(zone, y, m, d, w.endH, w.endM);
  }

  // ---------------------------------------------------------------------
  // addRange: the overlap check and the append

  /** `availabilities.some(r => overlaps(s, e, r.startUtc, r.endUtc))`. */
  function AnyOverlap(list: seq<Availability>, s: Instant, e: Instant): (b: bool)
    ensures b <==> exists i :: 0 <= i < |list| && Overlaps(s, e, list[i].startUtc, list[i].endUtc)
  {
    if list == [] then false
    else Overlaps(s, e, list[0].startUtc, list[0].endUtc) || AnyOverlap(list[1..], s, e)
  }

  /** Appending a range that overlaps no stored range keeps the list free of
      overlaps; appending it with the counter as id keeps the ids distinct
      and below the bumped counter. */
  lemma AppendKeepsInvariants(list: seq<Availability>, counter: int, s: Instant, e: Instant)
    requires !AnyOverlap(list, s, e)
    ensures NonOverlapping(list) ==> NonOverlapping(list + [Availability(counter, s, e)])
    ensures DistinctIds(list) && IdsBelow(list, counter) ==>
              DistinctIds(list + [Availability(counter, s, e)]) && IdsBelow(list + [Availability(counter, s, e)], counter + 1)
  {
    var a := Availability(counter, s, e);
    var list' := list + [a];
    forall i | 0 <= i < |list|
      ensures Apart(list'[i], a)
    {
      assert !Overlaps(s, e, list[i].startUtc, list[i].endUtc);
      OverlapsSymmetric(s, e, list[i].startUtc, list[i].endUtc);
    }
  }

  // ---------------------------------------------------------------------
  // deleteRange

  /** `list.filter(r => r.id !== id)`. */
  function Without(list: seq<Availability>, id: int): seq<Availability> {
    if list == [] then []
    else
      var rest := Without(list[..|list| - 1], id);
      if list[|list| - 1].id != id then rest + [list[|list| - 1]] else rest
  }

  /** Exactly the entries with another id remain. */
  lemma {:induction false} WithoutMembers(list: seq<Availability>, id: int)
    ensures forall a :: a in Without(list, id) <==> a in list && a.id != id
  {
    if list != [] {
      var init := list[..|list| - 1];
      WithoutMembers(init, id);
      assert list == init + [list[|list| - 1]];
    }
  }

  /** The filter works piecewise, so the kept entries stay in their order. */
  lemma {:induction false} WithoutConcat(a: seq<Availability>, b: seq<Availability>, id: int)
    ensures Without(a + b, id) == Without(a, id) + Without(b, id)
    decreases |b|
  {
    if b != [] {
      var init := b[..|b| - 1];
      WithoutConcat(a, init, id);
      assert (a + b)[..|a + b| - 1] == a + init;
      assert (a + b)[|a + b| - 1] == b[|b| - 1];
    } else {
      assert a + b == a;
    }
  }

  /** Deleting an id nobody has changes nothing, and deleting twice is
      deleting once. */
  lemma {:induction false} WithoutAbsent(list: seq<Availability>, id: int)
    ensures (forall i :: 0 <= i < |list| ==> list[i].id != id) ==> Without(list, id) == list
    ensures Without(Without(list, id), id) == Without(list, id)
  {
    if list != [] {
      var init := list[..|list| - 1];
      WithoutAbsent(init, id);
      var rest := Without(init, id);
      if list[|list| - 1].id != id {
        assert (rest + [list[|list| - 1]])[..|rest|] == rest;
      }
      assert list == init + [list[|list| - 1]];
    }
  }

  /** The filter keeps any pairwise relation the list had. */
  lemma {:induction false} WithoutKeepsPairwise(list: seq<Availability>, id: int,
                                                rel: (Availability, Availability) -> bool)
    requires Pairwise(list, rel)
    ensures Pairwise(Without(list, id), rel)
  {
    if list != [] {
      var init, last := list[..|list| - 1], list[|list| - 1];
      assert Pairwise(init, rel);
      WithoutKeepsPairwise(init, id, rel);
      var rest := Without(init, id);
      if last.id != id {
        var r := rest + [last];
        forall i, j | 0 <= i < j < |r|
          ensures rel(r[i], r[j])
        {
          if j == |rest| {
            WithoutMembers(init, id);
            assert r[i] in init;
            var k :| 0 <= k < |init| && init[k] == r[i];
            assert rel(list[k], list[|list| - 1]);
          } else {
            assert r[i] == rest[i] && r[j] == rest[j];
          }
        }
      }
    }
  }

  // ---------------------------------------------------------------------
  // Loading a shared state

  /** Decoded ranges with ids `first`, `first + 1`, ... in order: the ids
      `idCounter++` hands out inside `decoded.ranges.map(...)`. */
  function Numbered(ranges: seq<Share.Span>, first: int): seq<Availability> {
    if ranges == [] then []
    else
      Numbered(ranges[..|ranges| - 1], first)
      + [Availability(first + |ranges| - 1, ranges[|ranges| - 1].startUtc, ranges[|ranges| - 1].endUtc)]
  }

  /** Loaded entries keep the decoded instants, in order, and take
      consecutive ids from the counter, so their ids are distinct, at least
      `first` and below the advanced counter. */
  lemma {:induction false} NumberedIds(ranges: seq<Share.Span>, first: int)
    ensures var r := Numbered(ranges, first);
            |r| == |ranges| && DistinctIds(r) && IdsBelow(r, first + |ranges|)
    ensures var r := Numbered(ranges, first);
            forall i :: 0 <= i < |r| ==>
              r[i].id == first + i && r[i].startUtc == ranges[i].startUtc && r[i].endUtc == ranges[i].endUtc
  {
    if ranges != [] {
      var init := ranges[..|ranges| - 1];
      NumberedIds(init, first);
      var r := Numbered(ranges, first);
      forall i | 0 <= i < |r|
        ensures r[i].id == first + i && r[i].startUtc == ranges[i].startUtc && r[i].endUtc == ranges[i].endUtc
      {
        if i < |init| {
          assert r[i] == Numbered(init, first)[i];
        }
      }
    }
  }

  /** A decoded state never holds more ranges than the list may. */
  lemma DecodedFitsCap(s: string)
    requires Share.DecodeStateResult(s).Success?
    ensures |Share.DecodeStateResult(s).value.ranges| <= Share.MaxRanges
  {
    var buf := Base64Url.FromBase64UrlResult(s).value;
    Share.DecodedShareable(buf);
    Share.CountFitsOctet(buf);
  }

  /** A shared state can carry overlapping ranges, which load as they are:
      the overlap check guards addRange only. */
  lemma LoadKeepsOverlaps()
    ensures var buf: seq<byte> := [1, 2, 0, 0, 0, 30, 0, 0, 0, 30];
            && Share.DecodeBytes(buf).Success?
            && !NonOverlapping(Numbered(Share.DecodeBytes(buf).value.ranges, 1))
  {
    var buf: seq<byte> := [1, 2, 0, 0, 0, 30, 0, 0, 0, 30];
    var span := Share.Span(RefMondayUtc, RefMondayUtc + 30 * MsPerMinute);
    assert Share.ReadEntry(buf, 2) == Success(span);
    assert Share.ReadEntry(buf, 6) == Success(span);
    assert Share.EntriesFrom(buf, 6, 1, [span]) == Success([span, span]) by {
      assert [span] + [span] == [span, span];
    }
    assert Share.EntriesFrom(buf, 2, 2, []) == Success([span, span]) by {
      assert [] + [span] == [span];
    }
    assert Share.TimezoneAt(buf, 10) == Success([]);
    assert Share.DecodeBytes(buf) == Success(Share.SharedState([], [span, span]));
    var a := Availability(1, span.startUtc, span.endUtc);
    var b := Availability(2, span.startUtc, span.endUtc);
    assert Numbered([span], 1) == [a];
    assert [span, span][..1] == [span];
    assert Numbered([span, span], 1) == [a, b];
    assert !Apart([a, b][0], [a, b][1]);
  }

  // ---------------------------------------------------------------------
  // dayIndexOf, the list view and fmt

  /** `dayIndexOf(parts)`: whole days from the local date of the anchor to
      the date of `parts`, both read by Date.UTC, reduced to 0..6. */
  function DayIndexOf(zone: TimeZone, parts: DateTime): int {
    var baseParts := LocalParts(zone, RefMondayUtc);
    var baseDate := DateUtc(baseParts.year, baseParts.month - 1, baseParts.day, 0, 0, 0, 0);
    var curDate := DateUtc(parts.year, parts.month - 1, parts.day, 0, 0, 0, 0);
    var days := (curDate - baseDate) / MsPerDay;
    JsRem(JsRem(days, 7) + 7, 7)
  }

  /** The list view's day index is in 0..6 and agrees with
      dayIndexFromParts, which the grid uses. */
  lemma DayIndexOfAgrees(zone: TimeZone, parts: DateTime)
    ensures 0 <= DayIndexOf(zone, parts) < 7
    ensures DayIndexOf(zone, parts) == DayIndexFromParts(parts, zone)
  {
    var base := LocalParts(zone, RefMondayUtc);
    var delta := DayNumber(parts) - DayNumber(base);
    assert (DateUtc(parts.year, parts.month - 1, parts.day, 0, 0, 0, 0)
            - DateUtc(base.year, base.month - 1, base.day, 0, 0, 0, 0)) / MsPerDay == delta by {
      assert DateUtc(parts.year, parts.month - 1, parts.day, 0, 0, 0, 0) == DayNumber(parts) * MsPerDay;
      assert DateUtc(base.year, base.month - 1, base.day, 0, 0, 0, 0) == DayNumber(base) * MsPerDay;
      WholeDays(delta);
    }
    WeekRemNormalised(delta);
    DayIndexIsDayDistance(parts, zone);
  }

  lemma WholeDays(k: int)
    ensures (k * MsPerDay) / MsPerDay == k
  {
  }

  /** One row of the list view: the id and the local start and end. */
  datatype ListItem = ListItem(id: int, start: DateTime, end: DateTime)

  function Item(zone: TimeZone, r: Availability): ListItem {
    ListItem(r.id, LocalParts(zone, r.startUtc), LocalParts(zone, r.endUtc))
  }

  /** The rows before sorting: `availabilities.map(...)`. */
  function Items(zone: TimeZone, list: seq<Availability>): seq<ListItem> {
    if list == [] then [] else [Item(zone, list[0])] + Items(zone, list[1..])
  }

  /** The sort comparator of listView, for the day index `dayOf`: day index,
      then `hour - hour || minute - minute`. */
  function Compare(dayOf: DateTime -> int, a: ListItem, b: ListItem): int {
    var ai := dayOf(a.start);
    var bi := dayOf(b.start);
    if ai == bi then
      (if a.start.hour - b.start.hour != 0 then a.start.hour - b.start.hour
       else a.start.minute - b.start.minute)
    else ai - bi
  }

  /** Rows order by the key (day index, hour, minute) of their start. */
  predicate KeyLe(dayOf: DateTime -> int, a: ListItem, b: ListItem) {
    var ai, bi := dayOf(a.start), dayOf(b.start);
    ai < bi || (ai == bi && (a.start.hour < b.start.hour
                             || (a.start.hour == b.start.hour && a.start.minute <= b.start.minute)))
  }

  /** The comparator puts `a` no later than `b` exactly when its key is no
      greater; it is antisymmetric. */
  lemma CompareIsKeyOrder(dayOf: DateTime -> int, a: ListItem, b: ListItem)
    ensures Compare(dayOf, a, b) <= 0 <==> KeyLe(dayOf, a, b)
    ensures Compare(dayOf, a, b) == -Compare(dayOf, b, a)
  {
  }

  predicate Ascending(dayOf: DateTime -> int, items: seq<ListItem>) {
    forall i, j :: 0 <= i < j < |items| ==> KeyLe(dayOf, items[i], items[j])
  }

  /** Stable insertion of `x` before the first row it does not follow. */
  function Insert(dayOf: DateTime -> int, x: ListItem, sorted: seq<ListItem>): seq<ListItem> {
    if sorted == [] then [x]
    else if Compare(dayOf, x, sorted[0]) <= 0 then [x] + sorted
    else [sorted[0]] + Insert(dayOf, x, sorted[1..])
  }

  /** `Array.prototype.sort` with the listView comparator, as a stable
      insertion sort. */
  function SortItems(dayOf: DateTime -> int, items: seq<ListItem>): seq<ListItem> {
    if items == [] then [] else Insert(dayOf, items[0], SortItems(dayOf, items[1..]))
  }

  /** The day index listView sorts by. */
  function DayOfIn(zone: TimeZone): DateTime -> int {
    p => DayIndexOf(zone, p)
  }

  /** `listView`: the rows of the stored ranges, sorted. */
  function ListView(zone: TimeZone, list: seq<Availability>): seq<ListItem> {
    SortItems(DayOfIn(zone), Items(zone, list))
  }

  lemma {:induction false} InsertSorted(dayOf: DateTime -> int, x: ListItem, sorted: seq<ListItem>)
    requires Ascending(dayOf, sorted)
    ensures Ascending(dayOf, Insert(dayOf, x, sorted))
    ensures multiset(Insert(dayOf, x, sorted)) == multiset([x]) + multiset(sorted)
    decreases |sorted|, 1
  {
    if sorted != [] {
      var head, tail := sorted[0], sorted[1..];
      assert sorted == [head] + tail;
      CompareIsKeyOrder(dayOf, x, head);
      if Compare(dayOf, x, head) > 0 {
        InsertPastHead(dayOf, x, head, tail);
      } else {
        forall j | 0 <= j < |sorted|
          ensures KeyLe(dayOf, x, sorted[j])
        {
          if j > 0 {
            assert KeyLe(dayOf, head, sorted[j]);
          }
        }
        HeadBeforeAscending(dayOf, x, sorted);
      }
    }
  }

  /** Inserting past the head keeps the head first. */
  lemma {:induction false} InsertPastHead(dayOf: DateTime -> int, x: ListItem, head: ListItem, tail: seq<ListItem>)
    requires Ascending(dayOf, [head] + tail) && !KeyLe(dayOf, x, head)
    ensures Ascending(dayOf, [head] + Insert(dayOf, x, tail))
    ensures multiset(Insert(dayOf, x, tail)) == multiset([x]) + multiset(tail)
    decreases |tail| + 1, 0
  {
    var sorted := [head] + tail;
    assert Ascending(dayOf, tail) by {
      forall i, j | 0 <= i < j < |tail|
        ensures KeyLe(dayOf, tail[i], tail[j])
      {
        assert tail[i] == sorted[i + 1] && tail[j] == sorted[j + 1];
      }
    }
    InsertSorted(dayOf, x, tail);
    var ins := Insert(dayOf, x, tail);
    assert KeyLe(dayOf, head, x);
    forall j | 0 <= j < |ins|
      ensures KeyLe(dayOf, head, ins[j])
    {
      assert ins[j] in multiset(ins);
      if ins[j] != x {
        assert ins[j] in multiset(tail);
        var k :| 0 <= k < |tail| && tail[k] == ins[j];
        assert sorted[0] == head && sorted[k + 1] == tail[k];
        assert KeyLe(dayOf, sorted[0], sorted[k + 1]);
      }
    }
    HeadBeforeAscending(dayOf, head, ins);
  }

  /** A row no later than every row of an ascending list can go first. */
  lemma HeadBeforeAscending(dayOf: DateTime -> int, x: ListItem, rest: seq<ListItem>)
    requires Ascending(dayOf, rest)
    requires forall j :: 0 <= j < |rest| ==> KeyLe(dayOf, x, rest[j])
    ensures Ascending(dayOf, [x] + rest)
  {
    var r := [x] + rest;
    forall i, j | 0 <= i < j < |r|
      ensures KeyLe(dayOf, r[i], r[j])
    {
      assert r[j] == rest[j - 1];
      if i > 0 {
        assert r[i] == rest[i - 1];
      }
    }
  }

  /** The sorted rows are ascending by (day index, hour, minute) and are
      the input rows rearranged. */
  lemma {:induction false} SortItemsSorted(dayOf: DateTime -> int, items: seq<ListItem>)
    ensures Ascending(dayOf, SortItems(dayOf, items))
    ensures multiset(SortItems(dayOf, items)) == multiset(items)
  {
    if items != [] {
      SortItemsSorted(dayOf, items[1..]);
      InsertSorted(dayOf, items[0], SortItems(dayOf, items[1..]));
      assert items == [items[0]] + items[1..];
    }
  }

  /** The rows of the list view are the stored ranges, one each, read in
      `zone`. */
  lemma {:induction false} ItemsOfList(zone: TimeZone, list: seq<Availability>)
    ensures |Items(zone, list)| == |list|
    ensures forall i :: 0 <= i < |list| ==> Items(zone, list)[i] == Item(zone, list[i])
  {
    if list != [] {
      ItemsOfList(zone, list[1..]);
      forall i | 0 < i < |list|
        ensures Items(zone, list)[i] == Item(zone, list[i])
      {
        assert Items(zone, list)[i] == Items(zone, list[1..])[i - 1];
      }
    }
  }

  /** The list view is ascending by the day index of `zone`, hour and
      minute, and holds one row per stored range. */
  lemma ListViewSorted(zone: TimeZone, list: seq<Availability>)
    ensures var v := ListView(zone, list);
            forall i, j :: 0 <= i < j < |v| ==>
              var a, b := v[i].start, v[j].start;
              DayIndexOf(zone, a) < DayIndexOf(zone, b)
              || (DayIndexOf(zone, a) == DayIndexOf(zone, b)
                  && (a.hour < b.hour || (a.hour == b.hour && a.minute <= b.minute)))
    ensures multiset(ListView(zone, list)) == multiset(Items(zone, list))
    ensures |ListView(zone, list)| == |list|
  {
    SortItemsSorted(DayOfIn(zone), Items(zone, list));
    ItemsOfList(zone, list);
    var v := ListView(zone, list);
    assert |v| == |multiset(v)| == |multiset(Items(zone, list))|;
    forall i, j | 0 <= i < j < |v|
      ensures KeyLe(DayOfIn(zone), v[i], v[j])
    {
    }
  }

  /** `fmt(h, m)`, with the App's own zero padding. */
  function Fmt(h: int, m: int, timeFormat: string): string {
    if timeFormat == "24" then Pad2(h) + ":" + Pad2(m)
    else DecimalString(JsRem(h + 11, 12) + 1) + ":" + Pad2(m) + " " + (if h >= 12 then "PM" else "AM")
  }

  /** The list's label is the calendar's formatTime: in 24-hour mode a
      zero-padded HH:MM whose digits read back as the time, otherwise the
      12-hour clock hour (1..12, equal to h modulo 12), a colon, the minute
      in two digits and " PM" exactly from noon on, " AM" before. */
  lemma FmtIsFormatTime(h: int, m: int, timeFormat: string)
    requires 0 <= h < 24 && 0 <= m < 60
    ensures Fmt(h, m, timeFormat) == FormatTime(h, m, timeFormat)
    ensures timeFormat == "24" ==> Fmt(h, m, timeFormat) == LabelHM(h, m) && |Fmt(h, m, timeFormat)| == 5
    ensures timeFormat != "24" ==>
              var s, p := Fmt(h, m, timeFormat), |NatString(Hour12(h))|;
              && |s| == p + 6 && (s[p + 3..] == " PM" <==> h >= 12) && (s[p + 3..] == " AM" <==> h < 12)
              && 1 <= DigitsValue(s[..p]) <= 12 && DigitsValue(s[..p]) % 12 == h % 12 && s[p] == ':'
              && DigitValue(s[p + 1]) * 10 + DigitValue(s[p + 2]) == m
  {
    if timeFormat == "24" {
      FormatTime24(h, m);
    } else {
      FormatTime12(h, m, timeFormat);
    }
  }

  // ---------------------------------------------------------------------
  // The App's state

  /** The state src/App.jsx keeps: the zone name, the stored ranges, the id
      counter and the notices addRange and the loader open. */
  class Planner {
    /** The host's time-zone database: the zone a name denotes. */
    const resolve: seq<byte> -> TimeZone
    var timezone: seq<byte>
    var availabilities: seq<Availability>
    var idCounter: int
    var invalidStateOpen: bool
    var overlapOpen: bool
    var rangeCapOpen: bool

    /** At most 255 ranges (the shared count is one octet), with distinct
        ids below the counter. */
    ghost predicate Valid()
      reads this
    {
      |availabilities| <= Share.MaxRanges && DistinctIds(availabilities) && IdsBelow(availabilities, idCounter)
    }

    function Zone(): TimeZone
      reads this
    {
      resolve(timezone)
    }

    /** A fresh page: the default zone, no ranges, the counter at 1 and no
        notice open. */
    constructor(resolve: seq<byte> -> TimeZone, defaultZone: seq<byte>)
      ensures this.resolve == resolve && timezone == defaultZone
      ensures availabilities == [] && idCounter == 1
      ensures !invalidStateOpen && !overlapOpen && !rangeCapOpen
      ensures Valid() && NonOverlapping(availabilities)
    {
      this.resolve := resolve;
      timezone := defaultZone;
      availabilities := [];
      idCounter := 1;
      invalidStateOpen, overlapOpen, rangeCapOpen := false, false, false;
    }

    /** `addRange(dayIndex, startSlot, endSlot)`: at the cap, open the cap
        notice; otherwise convert the rows to instants and, if they overlap
        a stored range, open the overlap notice; otherwise append the range
        with the next id. A rejection leaves the list and the counter as
        they were; an acceptance leaves the earlier entries untouched. */
    method AddRange(dayIndex: int, startSlot: int, endSlot: int)
      requires Valid()
      modifies this
      ensures Valid()
      ensures old(NonOverlapping(availabilities)) ==> NonOverlapping(availabilities)
      ensures timezone == old(timezone) && invalidStateOpen == old(invalidStateOpen)
      ensures old(|availabilities|) >= Share.MaxRanges ==>
                && rangeCapOpen && overlapOpen == old(overlapOpen)
                && availabilities == old(availabilities) && idCounter == old(idCounter)
      ensures old(|availabilities|) < Share.MaxRanges ==>
                var r := RequestIn(old(Zone()), dayIndex, startSlot, endSlot);
                var s, e := r.startUtc, r.endUtc;
                && rangeCapOpen == old(rangeCapOpen)
                && (AnyOverlap(old(availabilities), s, e) ==>
                      overlapOpen && availabilities == old(availabilities) && idCounter == old(idCounter))
                && (!AnyOverlap(old(availabilities), s, e) ==>
                      && overlapOpen == old(overlapOpen)
                      && availabilities == old(availabilities) + [Availability(old(idCounter), s, e)]
                      && idCounter == old(idCounter) + 1)
    {
      if |availabilities| >= Share.MaxRanges {
        rangeCapOpen := true;
        return;
      }
      var s, e := CandidateIn(Zone(), dayIndex, startSlot, endSlot);
      if AnyOverlap(availabilities, s, e) {
        overlapOpen := true;
        return;
      }
      Append(s, e);
    }

    /** The append of addRange: the new range goes last, with the counter
        as its id, and the counter moves on. */
    method Append(s: Instant, e: Instant)
      requires Valid() && |availabilities| < Share.MaxRanges && !AnyOverlap(availabilities, s, e)
      modifies this
      ensures Valid()
      ensures old(NonOverlapping(availabilities)) ==> NonOverlapping(availabilities)
      ensures availabilities == old(availabilities) + [Availability(old(idCounter), s, e)]
      ensures idCounter == old(idCounter) + 1
      ensures timezone == old(timezone) && invalidStateOpen == old(invalidStateOpen)
      ensures overlapOpen == old(overlapOpen) && rangeCapOpen == old(rangeCapOpen)
    {
      AppendKeepsInvariants(availabilities, idCounter, s, e);
      availabilities := availabilities + [Availability(idCounter, s, e)];
      idCounter := idCounter + 1;
    }

    /** `deleteRange(id)`: keep the entries with another id, in order. */
    method DeleteRange(id: int)
      requires Valid()
      modifies this
      ensures Valid()
      ensures old(NonOverlapping(availabilities)) ==> NonOverlapping(availabilities)
      ensures availabilities == Without(old(availabilities), id)
      ensures timezone == old(timezone) && idCounter == old(idCounter)
      ensures invalidStateOpen == old(invalidStateOpen) && overlapOpen == old(overlapOpen)
      ensures rangeCapOpen == old(rangeCapOpen)
    {
      if NonOverlapping(availabilities) {
        WithoutKeepsPairwise(availabilities, id, Apart);
      }
      WithoutKeepsPairwise(availabilities, id, IdsDiffer);
      WithoutMembers(availabilities, id);
      var kept := Without(availabilities, id);
      forall i | 0 <= i < |kept|
        ensures kept[i].id < idCounter
      {
        assert kept[i] in availabilities;
      }
      assert |kept| <= |availabilities| by { WithoutLength(availabilities, id); }
      availabilities := kept;
    }

    /** The load branch: with a non-empty `state` parameter, decode it; on
        an error open the notice and change nothing else; on success adopt
        a non-empty decoded zone name and replace the list by the decoded
        ranges with fresh ids. */
    method LoadState(state: Option<string>)
      requires Valid()
      modifies this
      ensures Valid()
      ensures overlapOpen == old(overlapOpen) && rangeCapOpen == old(rangeCapOpen)
      ensures (state.None? || state.value == "") ==>
                && timezone == old(timezone) && availabilities == old(availabilities)
                && idCounter == old(idCounter) && invalidStateOpen == old(invalidStateOpen)
      ensures state.Some? && state.value != "" && Share.DecodeStateResult(state.value).Failure? ==>
                && invalidStateOpen && timezone == old(timezone)
                && availabilities == old(availabilities) && idCounter == old(idCounter)
      ensures state.Some? && state.value != "" && Share.DecodeStateResult(state.value).Success? ==>
                var st := Share.DecodeStateResult(state.value).value;
                && invalidStateOpen == old(invalidStateOpen)
                && timezone == (if st.timezone == [] then old(timezone) else st.timezone)
                && availabilities == Numbered(st.ranges, old(idCounter))
                && idCounter == old(idCounter) + |st.ranges|
    {
      if state.None? || state.value == "" {
        return;
      }
      var r := Share.DecodeState(state.value);
      if r.Failure? {
        invalidStateOpen := true;
        return;
      }
      DecodedFitsCap(state.value);
      Adopt(r.value);
    }

    /** The success branch of the loader: adopt a non-empty zone name and
        replace the list by the decoded ranges, numbered from the counter. */
    method Adopt(st: Share.SharedState)
      requires Valid() && |st.ranges| <= Share.MaxRanges
      modifies this
      ensures Valid()
      ensures invalidStateOpen == old(invalidStateOpen)
      ensures overlapOpen == old(overlapOpen) && rangeCapOpen == old(rangeCapOpen)
      ensures timezone == (if st.timezone == [] then old(timezone) else st.timezone)
      ensures availabilities == Numbered(st.ranges, old(idCounter))
      ensures idCounter == old(idCounter) + |st.ranges|
    {
      if st.timezone != [] {
        timezone := st.timezone;
      }
      var loaded: seq<Availability> := [];
      var next := idCounter;
      for i := 0 to |st.ranges|
        invariant next == old(idCounter) + i
        invariant loaded == Numbered(st.ranges[..i], old(idCounter))
      {
        assert st.ranges[..i + 1][..i] == st.ranges[..i];
        loaded := loaded + [Availability(next, st.ranges[i].startUtc, st.ranges[i].endUtc)];
        next := next + 1;
      }
      assert st.ranges[..|st.ranges|] == st.ranges;
      NumberedIds(st.ranges, old(idCounter));
      availabilities := loaded;
      idCounter := next;
    }
  }

  lemma {:induction false} WithoutLength(list: seq<Availability>, id: int)
    ensures |Without(list, id)| <= |list|
  {
    if list != [] {
      WithoutLength(list[..|list| - 1], id);
    }
  }
}
