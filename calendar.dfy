/** The weekly grid of src/components/AvailabilityCalendar.jsx: seven
    columns of 48 half-hour rows, the map from stored ranges to the rows they
    cover in each column, the hit test and segment lookup on that map, the
    row labels and the two-click selection. */
module Calendar {
  import opened Prelude
  import opened Civil
  import opened Time
  import App

  /** Columns (days) and rows (half hours) of the grid. */
  const Columns: nat := 7
  const Rows: nat := 48

  // ---------------------------------------------------------------------
  // Rows of a wall-clock time

  /** The row a local time falls in: `hour * 2 + (minute >= 30 ? 1 : 0)`. */
  function SlotOf(p: DateTime): int {
    p.hour * 2 + (if p.minute >= 30 then 1 else 0)
  }

  /** The exclusive end row of a segment ending at local time `p`: its row,
      except that 23:59, where segments stop at the end of a day, ends the
      column. */
  function EndSlotOf(p: DateTime): int {
    if p.hour == 23 && p.minute == 59 then Rows else SlotOf(p)
  }

  /** A wall-clock time lies in its row: the row is one of 0..47, its
      half hour starts at or before the time and ends after it. */
  lemma SlotOfTime(p: DateTime)
    requires 0 <= p.hour < 24 && 0 <= p.minute < 60
    ensures 0 <= SlotOf(p) < Rows
    ensures 30 * SlotOf(p) <= MinutesOfDay(p.hour, p.minute) < 30 * SlotOf(p) + 30
    ensures SlotOf(p) / 2 == p.hour && (SlotOf(p) % 2 == 1 <==> p.minute >= 30)
  {
  }

  /** The end row: 23:59 ends the column (row 48); any other time ends at
      its own row, which is before 48. */
  lemma EndSlotOfTime(p: DateTime)
    requires 0 <= p.hour < 24 && 0 <= p.minute < 60
    ensures p.hour == 23 && p.minute == 59 <==> EndSlotOf(p) == Rows
    ensures !(p.hour == 23 && p.minute == 59) ==> EndSlotOf(p) == SlotOf(p) < Rows
  {
  }

  // ---------------------------------------------------------------------
  // The day-slot map

  /** What a column records per segment: `{id, startIdx, endIdxExclusive}`. */
  datatype Mark = Mark(id: int, startIdx: int, endIdxExclusive: int)

  /** One column of the map: the set of marked rows and the `_segments`
      list (empty when the column has none). */
  datatype Column = Column(slots: set<int>, segments: seq<Mark>)

  predicate Covers(m: Mark, slot: int) {
    m.startIdx <= slot < m.endIdxExclusive
  }

  predicate StartsAt(m: Mark, slot: int) {
    m.startIdx == slot
  }

  /** The rows `a <= s < b`. */
  function SlotsBetween(a: int, b: int): set<int>
    decreases b - a
  {
    if b <= a then {} else SlotsBetween(a, b - 1) + {b - 1}
  }

  lemma {:induction false} SlotsBetweenMembers(a: int, b: int)
    ensures forall s :: s in SlotsBetween(a, b) <==> a <= s < b
    decreases b - a
  {
    if a < b {
      SlotsBetweenMembers(a, b - 1);
    }
  }

  function EmptyColumns(): (cols: seq<Column>)
    ensures |cols| == Columns
  {
    seq(Columns, _ => Column({}, []))
  }

  /** The record of segment `seg` of the range with id `id`. */
  function MarkOf(zone: TimeZone, id: int, seg: DaySegment): Mark {
    Mark(id, SlotOf(LocalParts(zone, seg.startMs)), EndSlotOf(LocalParts(zone, seg.endMs)))
  }

  /** Column `day` with the rows of `m` added and `m` appended. */
  function Marked(cols: seq<Column>, day: int, m: Mark): seq<Column>
    requires 0 <= day < |cols|
  {
    cols[day := Column(cols[day].slots + SlotsBetween(m.startIdx, m.endIdxExclusive), cols[day].segments + [m])]
  }

  /** Every segment's day index names a column. */
  predicate InWeek(segs: seq<DaySegment>) {
    forall i :: 0 <= i < |segs| ==> 0 <= segs[i].dayIndex < Columns
  }

  /** The segments splitRangeByLocalDays returns carry day indexes 0..6. */
  lemma SegmentsInWeek(zone: TimeZone, startUtc: Instant, endUtc: Instant)
    ensures InWeek(Segments(zone, startUtc, endUtc))
  {
    SegmentsLabelled(zone, startUtc, endUtc);
  }

  /** The inner loop of buildDaySlotMap: the segments `segs` of one range,
      in order. */
  function MarkAll(cols: seq<Column>, zone: TimeZone, id: int, segs: seq<DaySegment>): (r: seq<Column>)
    requires |cols| == Columns && InWeek(segs)
    ensures |r| == Columns
    decreases |segs|
  {
    if segs == [] then cols
    else MarkAll(Marked(cols, segs[0].dayIndex, MarkOf(zone, id, segs[0])), zone, id, segs[1..])
  }

  /** The outer loop of buildDaySlotMap: the ranges `ranges`, in order. */
  function RangesFrom(cols: seq<Column>, zone: TimeZone, ranges: seq<App.Availability>): (r: seq<Column>)
    requires |cols| == Columns
    ensures |r| == Columns
    decreases |ranges|
  {
    if ranges == [] then cols
    else
      var segs := Segments(zone, ranges[0].startUtc, ranges[0].endUtc);
      SegmentsInWeek(zone, ranges[0].startUtc, ranges[0].endUtc);
      RangesFrom(MarkAll(cols, zone, ranges[0].id, segs), zone, ranges[1..])
  }

  /** `buildDaySlotMap(ranges, tz)`. */
  function DaySlotMap(ranges: seq<App.Availability>, zone: TimeZone): seq<Column> {
    RangesFrom(EmptyColumns(), zone, ranges)
  }

  /** `buildDaySlotMap(ranges, tz)`: seven empty columns, then for each range
      and each of its local-day segments, the segment's rows added to its
      column and its record pushed there. */
  method BuildDaySlotMap(ranges: seq<App.Availability>, zone: TimeZone) returns (grid: array<Column>)
    ensures fresh(grid) && grid[..] == DaySlotMap(ranges, zone)
  {
    grid := new Column[Columns](_ => Column({}, []));
    assert grid[..] == EmptyColumns();
    for i := 0 to |ranges|
      invariant grid.Length == Columns
      invariant RangesFrom(grid[..], zone, ranges[i..]) == DaySlotMap(ranges, zone)
    {
      var r := ranges[i];
      var segs := SplitRangeByLocalDays(r.startUtc, r.endUtc, zone);
      SegmentsInWeek(zone, r.startUtc, r.endUtc);
      MarkSegments(grid, zone, r.id, segs);
      assert ranges[i..][1..] == ranges[i + 1..];
    }
  }

  /** `for (const seg of segs)`: mark each segment of one range. */
  method MarkSegments(grid: array<Column>, zone: TimeZone, id: int, segs: seq<DaySegment>)
    requires grid.Length == Columns && InWeek(segs)
    modifies grid
    ensures grid[..] == MarkAll(old(grid[..]), zone, id, segs)
  {
    for j := 0 to |segs|
      invariant MarkAll(grid[..], zone, id, segs[j..]) == MarkAll(old(grid[..]), zone, id, segs)
    {
      var seg := segs[j];
      var start := LocalParts(zone, seg.startMs);
      var end := LocalParts(zone, seg.endMs);
      var startIdx := start.hour * 2 + (if start.minute >= 30 then 1 else 0);
      var endIdxExclusive := end.hour * 2 + (if end.minute >= 30 then 1 else 0);
      if end.hour == 23 && end.minute == 59 {
        endIdxExclusive := 48;
      }
      assert Mark(id, startIdx, endIdxExclusive) == MarkOf(zone, id, seg);
      MarkColumn(grid, seg.dayIndex, Mark(id, startIdx, endIdxExclusive));
      assert segs[j..][1..] == segs[j + 1..];
    }
  }

  /** Add the rows `startIdx <= s < endIdxExclusive` of one segment to its
      column, one at a time, and push its record. */
  method MarkColumn(grid: array<Column>, day: int, m: Mark)
    requires 0 <= day < grid.Length
    modifies grid
    ensures grid[..] == Marked(old(grid[..]), day, m)
  {
    ghost var col := grid[day];
    var s := m.startIdx;
    while s < m.endIdxExclusive
      invariant m.startIdx <= s && (s <= m.endIdxExclusive || s == m.startIdx)
      invariant forall k :: 0 <= k < grid.Length && k != day ==> grid[k] == old(grid[k])
      invariant grid[day] == Column(col.slots + SlotsBetween(m.startIdx, s), col.segments)
      decreases m.endIdxExclusive - s
    {
      grid[day] := grid[day].(slots := grid[day].slots + {s});
      s := s + 1;
    }
    assert SlotsBetween(m.startIdx, s) == SlotsBetween(m.startIdx, m.endIdxExclusive) by {
      SlotsBetweenMembers(m.startIdx, s);
      SlotsBetweenMembers(m.startIdx, m.endIdxExclusive);
    }
    grid[day] := grid[day].(segments := grid[day].segments + [m]);
  }

  // ---------------------------------------------------------------------
  // Properties of the map

  /** A column's marked rows are exactly the rows its records cover. */
  ghost predicate Consistent(col: Column) {
    forall s :: s in col.slots <==> exists k :: 0 <= k < |col.segments| && Covers(col.segments[k], s)
  }

  ghost predicate AllConsistent(cols: seq<Column>) {
    forall d :: 0 <= d < |cols| ==> Consistent(cols[d])
  }

  /** `b` extends `a`: same columns, each with at least the rows and the
      records of `a`, earlier records first. */
  predicate Extends(a: seq<Column>, b: seq<Column>) {
    && |a| == |b|
    && forall d :: 0 <= d < |a| ==>
         a[d].slots <= b[d].slots && a[d].segments <= b[d].segments
  }

  lemma MarkedConsistent(cols: seq<Column>, day: int, m: Mark)
    requires 0 <= day < |cols| && AllConsistent(cols)
    ensures AllConsistent(Marked(cols, day, m)) && Extends(cols, Marked(cols, day, m))
  {
    var old_ := cols[day];
    var new_ := Marked(cols, day, m)[day];
    SlotsBetweenMembers(m.startIdx, m.endIdxExclusive);
    forall s
      ensures s in new_.slots <==> exists k :: 0 <= k < |new_.segments| && Covers(new_.segments[k], s)
    {
      if s in old_.slots {
        var k :| 0 <= k < |old_.segments| && Covers(old_.segments[k], s);
        assert new_.segments[k] == old_.segments[k];
      } else if Covers(m, s) {
        assert new_.segments[|old_.segments|] == m;
      }
      if k :| 0 <= k < |new_.segments| && Covers(new_.segments[k], s) {
        if k < |old_.segments| {
          assert old_.segments[k] == new_.segments[k];
        }
      }
    }
  }

  lemma {:induction false} MarkAllConsistent(cols: seq<Column>, zone: TimeZone, id: int, segs: seq<DaySegment>)
    requires |cols| == Columns && InWeek(segs) && AllConsistent(cols)
    ensures AllConsistent(MarkAll(cols, zone, id, segs)) && Extends(cols, MarkAll(cols, zone, id, segs))
    decreases |segs|
  {
    if segs != [] {
      var next := Marked(cols, segs[0].dayIndex, MarkOf(zone, id, segs[0]));
      MarkedConsistent(cols, segs[0].dayIndex, MarkOf(zone, id, segs[0]));
      MarkAllConsistent(next, zone, id, segs[1..]);
      ExtendsTransitive(cols, next, MarkAll(next, zone, id, segs[1..]));
    }
  }

  lemma ExtendsTransitive(a: seq<Column>, b: seq<Column>, c: seq<Column>)
    requires Extends(a, b) && Extends(b, c)
    ensures Extends(a, c)
  {
    forall d | 0 <= d < |a|
      ensures a[d].segments <= c[d].segments
    {
      PrefixTransitive(a[d].segments, b[d].segments, c[d].segments);
    }
  }

  lemma PrefixTransitive(a: seq<Mark>, b: seq<Mark>, c: seq<Mark>)
    requires a <= b && b <= c
    ensures a <= c
  {
    assert a == b[..|a|];
    assert b == c[..|b|];
    assert c[..|a|] == c[..|b|][..|a|];
  }

  /** Marking the segments of one range records each of them in its own
      column and marks its rows there. */
  lemma {:induction false} MarkAllRecords(cols: seq<Column>, zone: TimeZone, id: int, segs: seq<DaySegment>)
    requires |cols| == Columns && InWeek(segs)
    ensures var r := MarkAll(cols, zone, id, segs);
            forall i :: 0 <= i < |segs| ==>
              var m := MarkOf(zone, id, segs[i]);
              m in r[segs[i].dayIndex].segments
              && SlotsBetween(m.startIdx, m.endIdxExclusive) <= r[segs[i].dayIndex].slots
    decreases |segs|
  {
    if segs != [] {
      var m0 := MarkOf(zone, id, segs[0]);
      var next := Marked(cols, segs[0].dayIndex, m0);
      MarkAllRecords(next, zone, id, segs[1..]);
      MarkAllGrows(next, zone, id, segs[1..]);
      var r := MarkAll(cols, zone, id, segs);
      var d := segs[0].dayIndex;
      assert next[d].segments[|cols[d].segments|] == m0;
      assert m0 in r[d].segments by {
        assert next[d].segments <= r[d].segments;
        assert r[d].segments[|cols[d].segments|] == m0;
      }
      forall i | 1 <= i < |segs|
        ensures MarkOf(zone, id, segs[i]) in r[segs[i].dayIndex].segments
        ensures SlotsBetween(MarkOf(zone, id, segs[i]).startIdx, MarkOf(zone, id, segs[i]).endIdxExclusive)
                <= r[segs[i].dayIndex].slots
      {
        assert segs[i] == segs[1..][i - 1];
      }
    }
  }

  /** Marking only adds rows and appends records. */
  lemma {:induction false} MarkAllGrows(cols: seq<Column>, zone: TimeZone, id: int, segs: seq<DaySegment>)
    requires |cols| == Columns && InWeek(segs)
    ensures Extends(cols, MarkAll(cols, zone, id, segs))
    decreases |segs|
  {
    if segs != [] {
      var next := Marked(cols, segs[0].dayIndex, MarkOf(zone, id, segs[0]));
      MarkAllGrows(next, zone, id, segs[1..]);
      ExtendsTransitive(cols, next, MarkAll(next, zone, id, segs[1..]));
    }
  }

  lemma {:induction false} RangesFromGrows(cols: seq<Column>, zone: TimeZone, ranges: seq<App.Availability>)
    requires |cols| == Columns
    ensures Extends(cols, RangesFrom(cols, zone, ranges))
    decreases |ranges|
  {
    if ranges != [] {
      var segs := Segments(zone, ranges[0].startUtc, ranges[0].endUtc);
      SegmentsInWeek(zone, ranges[0].startUtc, ranges[0].endUtc);
      var next := MarkAll(cols, zone, ranges[0].id, segs);
      MarkAllGrows(cols, zone, ranges[0].id, segs);
      RangesFromGrows(next, zone, ranges[1..]);
      ExtendsTransitive(cols, next, RangesFrom(next, zone, ranges[1..]));
    }
  }

  lemma {:induction false} RangesFromConsistent(cols: seq<Column>, zone: TimeZone, ranges: seq<App.Availability>)
    requires |cols| == Columns && AllConsistent(cols)
    ensures AllConsistent(RangesFrom(cols, zone, ranges))
    decreases |ranges|
  {
    if ranges != [] {
      var segs := Segments(zone, ranges[0].startUtc, ranges[0].endUtc);
      SegmentsInWeek(zone, ranges[0].startUtc, ranges[0].endUtc);
      MarkAllConsistent(cols, zone, ranges[0].id, segs);
      RangesFromConsistent(MarkAll(cols, zone, ranges[0].id, segs), zone, ranges[1..]);
    }
  }

  lemma {:induction false} RangesFromRecords(cols: seq<Column>, zone: TimeZone, ranges: seq<App.Availability>)
    requires |cols| == Columns
    ensures var r := RangesFrom(cols, zone, ranges);
            forall i, seg :: 0 <= i < |ranges| && seg in Segments(zone, ranges[i].startUtc, ranges[i].endUtc) ==>
              0 <= seg.dayIndex < Columns
              && MarkOf(zone, ranges[i].id, seg) in r[seg.dayIndex].segments
              && SlotsBetween(MarkOf(zone, ranges[i].id, seg).startIdx, MarkOf(zone, ranges[i].id, seg).endIdxExclusive)
                 <= r[seg.dayIndex].slots
    decreases |ranges|
  {
    if ranges != [] {
      var segs := Segments(zone, ranges[0].startUtc, ranges[0].endUtc);
      SegmentsInWeek(zone, ranges[0].startUtc, ranges[0].endUtc);
      var next := MarkAll(cols, zone, ranges[0].id, segs);
      MarkAllRecords(cols, zone, ranges[0].id, segs);
      RangesFromRecords(next, zone, ranges[1..]);
      RangesFromGrows(next, zone, ranges[1..]);
      var r := RangesFrom(cols, zone, ranges);
      forall i, seg | 0 <= i < |ranges| && seg in Segments(zone, ranges[i].startUtc, ranges[i].endUtc)
        ensures 0 <= seg.dayIndex < Columns
        ensures MarkOf(zone, ranges[i].id, seg) in r[seg.dayIndex].segments
        ensures SlotsBetween(MarkOf(zone, ranges[i].id, seg).startIdx, MarkOf(zone, ranges[i].id, seg).endIdxExclusive)
                <= r[seg.dayIndex].slots
      {
        if i == 0 {
          var k :| 0 <= k < |segs| && segs[k] == seg;
          var m := MarkOf(zone, ranges[0].id, seg);
          assert m in next[seg.dayIndex].segments;
          PrefixMember(next[seg.dayIndex].segments, r[seg.dayIndex].segments, m);
        } else {
          assert ranges[i] == ranges[1..][i - 1];
        }
      }
    }
  }

  /** Record `m` in column `d` comes from a local-day segment, with that day
      index, of one of `ranges`. */
  ghost predicate FromSomeRange(zone: TimeZone, ranges: seq<App.Availability>, d: int, m: Mark) {
    exists i, seg :: 0 <= i < |ranges| && seg in Segments(zone, ranges[i].startUtc, ranges[i].endUtc)
                     && seg.dayIndex == d && m == MarkOf(zone, ranges[i].id, seg)
  }

  /** Marking the segments of one range adds no record other than those of
      its segments, each in the column of its day index. */
  lemma {:induction false} MarkAllOnlyRecords(cols: seq<Column>, zone: TimeZone, id: int, segs: seq<DaySegment>)
    requires |cols| == Columns && InWeek(segs)
    ensures var r := MarkAll(cols, zone, id, segs);
            forall d, m :: 0 <= d < Columns && m in r[d].segments ==>
              m in cols[d].segments || exists seg :: seg in segs && seg.dayIndex == d && m == MarkOf(zone, id, seg)
    decreases |segs|
  {
    if segs != [] {
      var d0, m0 := segs[0].dayIndex, MarkOf(zone, id, segs[0]);
      var next := Marked(cols, d0, m0);
      MarkAllOnlyRecords(next, zone, id, segs[1..]);
      var r := MarkAll(cols, zone, id, segs);
      forall d, m | 0 <= d < Columns && m in r[d].segments
        ensures m in cols[d].segments || exists seg :: seg in segs && seg.dayIndex == d && m == MarkOf(zone, id, seg)
      {
        if m in next[d].segments {
          if d == d0 && m !in cols[d].segments {
            assert m == m0 && segs[0] in segs;
          }
        } else {
          var seg :| seg in segs[1..] && seg.dayIndex == d && m == MarkOf(zone, id, seg);
          assert seg in segs;
        }
      }
    }
  }

  /** The outer loop adds no record other than those of the segments of
      `ranges`, each in the column of its day index. */
  lemma {:induction false} RangesFromOnlyRecords(cols: seq<Column>, zone: TimeZone, ranges: seq<App.Availability>)
    requires |cols| == Columns
    ensures var r := RangesFrom(cols, zone, ranges);
            forall d, m :: 0 <= d < Columns && m in r[d].segments ==>
              m in cols[d].segments || FromSomeRange(zone, ranges, d, m)
    decreases |ranges|
  {
    if ranges != [] {
      var segs := Segments(zone, ranges[0].startUtc, ranges[0].endUtc);
      SegmentsInWeek(zone, ranges[0].startUtc, ranges[0].endUtc);
      var next := MarkAll(cols, zone, ranges[0].id, segs);
      MarkAllOnlyRecords(cols, zone, ranges[0].id, segs);
      RangesFromOnlyRecords(next, zone, ranges[1..]);
      var r := RangesFrom(cols, zone, ranges);
      forall d, m | 0 <= d < Columns && m in r[d].segments
        ensures m in cols[d].segments || FromSomeRange(zone, ranges, d, m)
      {
        if m in next[d].segments {
          if m !in cols[d].segments {
            var seg :| seg in segs && seg.dayIndex == d && m == MarkOf(zone, ranges[0].id, seg);
            assert 0 < |ranges|;
          }
        } else {
          var i, seg :| 0 <= i < |ranges[1..]| && seg in Segments(zone, ranges[1..][i].startUtc, ranges[1..][i].endUtc)
                        && seg.dayIndex == d && m == MarkOf(zone, ranges[1..][i].id, seg);
          assert ranges[1..][i] == ranges[i + 1];
        }
      }
    }
  }

  lemma PrefixMember(a: seq<Mark>, b: seq<Mark>, m: Mark)
    requires a <= b && m in a
    ensures m in b
  {
    var k :| 0 <= k < |a| && a[k] == m;
    assert b[k] == m;
  }

  /** buildDaySlotMap returns seven columns. In each, the marked rows are
      exactly the rows its records cover; and every local-day segment of
      every range is recorded, as `{id, startIdx, endIdxExclusive}`, in the
      column of its day index, with its rows marked there; and every record
      of a column comes from such a segment of some range with that day
      index. */
  lemma DaySlotMapSpec(ranges: seq<App.Availability>, zone: TimeZone)
    ensures |DaySlotMap(ranges, zone)| == Columns
    ensures AllConsistent(DaySlotMap(ranges, zone))
    ensures var r := DaySlotMap(ranges, zone);
            forall i, seg :: 0 <= i < |ranges| && seg in Segments(zone, ranges[i].startUtc, ranges[i].endUtc) ==>
              0 <= seg.dayIndex < Columns
              && MarkOf(zone, ranges[i].id, seg) in r[seg.dayIndex].segments
              && SlotsBetween(MarkOf(zone, ranges[i].id, seg).startIdx, MarkOf(zone, ranges[i].id, seg).endIdxExclusive)
                 <= r[seg.dayIndex].slots
    ensures var r := DaySlotMap(ranges, zone);
            forall d, m :: 0 <= d < Columns && m in r[d].segments ==> FromSomeRange(zone, ranges, d, m)
  {
    assert AllConsistent(EmptyColumns());
    RangesFromConsistent(EmptyColumns(), zone, ranges);
    RangesFromRecords(EmptyColumns(), zone, ranges);
    RangesFromOnlyRecords(EmptyColumns(), zone, ranges);
  }

  // ---------------------------------------------------------------------
  // hitTest and findSegment

  /** `list.find(p) || null`. */
  function FindFirst(list: seq<Mark>, p: Mark -> bool): Option<Mark> {
    if list == [] then None
    else if p(list[0]) then Some(list[0])
    else FindFirst(list[1..], p)
  }

  /** find returns the first element satisfying the test, or nothing when
      none does. */
  lemma {:induction false} FindFirstSpec(list: seq<Mark>, p: Mark -> bool)
    ensures FindFirst(list, p).None? <==> forall k :: 0 <= k < |list| ==> !p(list[k])
    ensures FindFirst(list, p).Some? ==>
              exists k :: 0 <= k < |list| && list[k] == FindFirst(list, p).value && p(list[k])
                          && forall j :: 0 <= j < k ==> !p(list[j])
  {
    if list != [] && !p(list[0]) {
      FindFirstSpec(list[1..], p);
      if FindFirst(list[1..], p).Some? {
        var k :| 0 <= k < |list[1..]| && list[1..][k] == FindFirst(list[1..], p).value && p(list[1..][k])
                 && forall j :: 0 <= j < k ==> !p(list[1..][j]);
        assert list[k + 1] == list[1..][k];
        forall j | 0 <= j < k + 1
          ensures !p(list[j])
        {
          if j > 0 {
            assert list[j] == list[1..][j - 1];
          }
        }
      } else {
        forall k | 0 <= k < |list|
          ensures !p(list[k])
        {
          if k > 0 {
            assert list[k] == list[1..][k - 1];
          }
        }
      }
    }
  }

  /** The segments recorded in column `dayIndex`, none when there is no
      such column. */
  function SegmentsIn(grid: seq<Column>, dayIndex: int): seq<Mark> {
    if 0 <= dayIndex < |grid| then grid[dayIndex].segments else []
  }

  /** `hitTest(dayIndex, slot, daySlotMap)`. */
  function HitTest(dayIndex: int, slot: int, grid: seq<Column>): Option<Mark> {
    FindFirst(SegmentsIn(grid, dayIndex), m => Covers(m, slot))
  }

  /** `findSegment(dayIndex, slot, daySlotMap)`. */
  function FindSegment(dayIndex: int, slot: int, grid: seq<Column>): Option<Mark> {
    FindFirst(SegmentsIn(grid, dayIndex), m => StartsAt(m, slot))
  }

  /** hitTest answers the first record of the column whose half-open row
      interval contains the row; it answers nothing exactly when no record
      does, which in a map built by buildDaySlotMap is when the row is not
      marked. */
  lemma HitTestSpec(dayIndex: int, slot: int, grid: seq<Column>)
    ensures var segs := SegmentsIn(grid, dayIndex);
            HitTest(dayIndex, slot, grid).Some? ==>
              exists k :: 0 <= k < |segs| && segs[k] == HitTest(dayIndex, slot, grid).value
                          && Covers(segs[k], slot) && forall j :: 0 <= j < k ==> !Covers(segs[j], slot)
    ensures AllConsistent(grid) ==>
              (HitTest(dayIndex, slot, grid).Some? <==> 0 <= dayIndex < |grid| && slot in grid[dayIndex].slots)
  {
    var segs := SegmentsIn(grid, dayIndex);
    var p := m => Covers(m, slot);
    FindFirstSpec(segs, p);
    if AllConsistent(grid) && 0 <= dayIndex < |grid| {
      assert Consistent(grid[dayIndex]);
      if slot in grid[dayIndex].slots {
        var k :| 0 <= k < |segs| && Covers(segs[k], slot);
        assert p(segs[k]);
      }
    }
  }

  /** In the map buildDaySlotMap returns, a click hits exactly when some
      local-day segment of a stored range, in the clicked column, covers the
      clicked row; a free cell is never hit, so it starts or completes a
      selection. */
  lemma HitTestBuilt(ranges: seq<App.Availability>, zone: TimeZone, dayIndex: int, slot: int)
    ensures HitTest(dayIndex, slot, DaySlotMap(ranges, zone)).Some? <==>
              exists i, seg :: 0 <= i < |ranges| && seg in Segments(zone, ranges[i].startUtc, ranges[i].endUtc)
                               && seg.dayIndex == dayIndex && Covers(MarkOf(zone, ranges[i].id, seg), slot)
  {
    if HitTest(dayIndex, slot, DaySlotMap(ranges, zone)).Some? {
      HitFromRange(ranges, zone, dayIndex, slot);
    }
    if exists i, seg :: 0 <= i < |ranges| && seg in Segments(zone, ranges[i].startUtc, ranges[i].endUtc)
                        && seg.dayIndex == dayIndex && Covers(MarkOf(zone, ranges[i].id, seg), slot) {
      var i, seg :| 0 <= i < |ranges| && seg in Segments(zone, ranges[i].startUtc, ranges[i].endUtc)
                    && seg.dayIndex == dayIndex && Covers(MarkOf(zone, ranges[i].id, seg), slot);
      RangeIsHit(ranges, zone, i, seg, slot);
    }
  }

  /** A hit record comes from a segment of a stored range. */
  lemma HitFromRange(ranges: seq<App.Availability>, zone: TimeZone, dayIndex: int, slot: int)
    ensures HitTest(dayIndex, slot, DaySlotMap(ranges, zone)).Some? ==>
              exists m :: FromSomeRange(zone, ranges, dayIndex, m) && Covers(m, slot)
  {
    if HitTest(dayIndex, slot, DaySlotMap(ranges, zone)).None? {
      return;
    }
    var grid := DaySlotMap(ranges, zone);
    var segs := SegmentsIn(grid, dayIndex);
    var p := m => Covers(m, slot);
    FindFirstSpec(segs, p);
    RangesFromOnlyRecords(EmptyColumns(), zone, ranges);
    var k :| 0 <= k < |segs| && p(segs[k]);
    assert segs[k] in grid[dayIndex].segments;
    assert FromSomeRange(zone, ranges, dayIndex, segs[k]);
  }

  /** A row a stored range's segment covers is hit in that segment's column. */
  lemma RangeIsHit(ranges: seq<App.Availability>, zone: TimeZone, i: int, seg: DaySegment, slot: int)
    ensures 0 <= i < |ranges| && seg in Segments(zone, ranges[i].startUtc, ranges[i].endUtc)
            && Covers(MarkOf(zone, ranges[i].id, seg), slot) ==>
              HitTest(seg.dayIndex, slot, DaySlotMap(ranges, zone)).Some?
  {
    if !(0 <= i < |ranges| && seg in Segments(zone, ranges[i].startUtc, ranges[i].endUtc)
         && Covers(MarkOf(zone, ranges[i].id, seg), slot)) {
      return;
    }
    var segs := SegmentsIn(DaySlotMap(ranges, zone), seg.dayIndex);
    var p := m => Covers(m, slot);
    FindFirstSpec(segs, p);
    RangesFromRecords(EmptyColumns(), zone, ranges);
    var m := MarkOf(zone, ranges[i].id, seg);
    assert m in segs;
    var k :| 0 <= k < |segs| && segs[k] == m;
    assert p(segs[k]);
  }

  /** findSegment answers the first record of the column that starts at the
      row, or nothing when none does. */
  lemma FindSegmentSpec(dayIndex: int, slot: int, grid: seq<Column>)
    ensures var segs := SegmentsIn(grid, dayIndex);
            FindSegment(dayIndex, slot, grid).None? <==> forall k :: 0 <= k < |segs| ==> segs[k].startIdx != slot
    ensures var segs := SegmentsIn(grid, dayIndex);
            FindSegment(dayIndex, slot, grid).Some? ==>
              exists k :: 0 <= k < |segs| && segs[k] == FindSegment(dayIndex, slot, grid).value
                          && segs[k].startIdx == slot && forall j :: 0 <= j < k ==> segs[j].startIdx != slot
  {
    FindFirstSpec(SegmentsIn(grid, dayIndex), m => StartsAt(m, slot));
  }

  // ---------------------------------------------------------------------
  // Row labels

  /** `toLabelHM(slot, format)`: the time at which row `slot` begins, with
      row 48 (the end of the day) shown as 00:00. */
  function ToLabelHM(slot: int, format: string): string {
    var capped := Min(slot, Rows);
    var h := if capped == Rows then 0 else capped / 2;
    var m := if capped == Rows then 0 else if JsRem(capped, 2) == 0 then 0 else 30;
    if format == "24" then Pad2(h) + ":" + Pad2(m)
    else DecimalString(Hour12(h)) + ":" + Pad2(m) + " " + (if h >= 12 then "PM" else "AM")
  }

  /** Row `slot` of the day begins at hour `slot / 2`, minute 0 or 30 by
      parity. */
  lemma RowStart(slot: int)
    requires 0 <= slot < Rows
    ensures Min(slot, Rows) == slot
    ensures (if JsRem(slot, 2) == 0 then 0 else 30) == 30 * (slot % 2)
  {
  }

  /** A row label is formatTime of the row's start: hour `slot / 2`, minute
      0 or 30 by parity; row 48 and beyond read as midnight. */
  lemma ToLabelHMSpec(slot: int, format: string)
    requires 0 <= slot
    ensures slot < Rows ==> ToLabelHM(slot, format) == FormatTime(slot / 2, 30 * (slot % 2), format)
    ensures slot >= Rows ==> ToLabelHM(slot, format) == FormatTime(0, 0, format)
    ensures slot < Rows && format == "24" ==>
              ToLabelHM(slot, format) == LabelHM(slot / 2, 30 * (slot % 2)) && |ToLabelHM(slot, format)| == 5
  {
    if slot < Rows {
      RowStart(slot);
      if format == "24" {
        FormatTime24(slot / 2, 30 * (slot % 2));
      }
    }
  }

  /** `formatSlot(slot, format)`: the hour label of the rail. */
  function FormatSlot(slot: int, format: string): string {
    var h := slot / 2;
    if format == "24" then Pad2(h) + ":00"
    else DecimalString(Hour12(h)) + ":00 " + (if h >= 12 then "PM" else "AM")
  }

  /** The rail label of a row is formatTime of its hour on the hour. */
  lemma FormatSlotSpec(slot: int, format: string)
    requires 0 <= slot < Rows
    ensures FormatSlot(slot, format) == FormatTime(slot / 2, 0, format)
    ensures format == "24" ==> |FormatSlot(slot, format)| == 5
  {
    assert Pad2(0) == "00";
    if format == "24" {
      FormatTime24(slot / 2, 0);
    } else {
      var pre := DecimalString(Hour12(slot / 2));
      var suffix := if slot / 2 >= 12 then "PM" else "AM";
      assert pre + ":00 " + suffix == pre + ":" + "00" + " " + suffix;
    }
  }

  // ---------------------------------------------------------------------
  // The two-click selection

  /** The first click of a selection: `{dayIndex, slot}`. */
  datatype Pending = Pending(dayIndex: int, slot: int)

  /** The call `onAddRange(dayIndex, a, b)` a completed selection makes. */
  datatype AddRequest = AddRequest(dayIndex: int, startSlot: int, endSlot: int)

  /** The selection state of the grid. */
  class Selection {
    var pending: Option<Pending>

    constructor()
      ensures pending == None
    {
      pending := None;
    }

    /** `onCellClick(dayIndex, slot)`: a click on a row a recorded segment
        covers does nothing; otherwise the first click, or a click in
        another column, becomes the pending one; a second click in the same
        column asks for the rows between the two clicks, lower first, and
        clears the pending click. */
    method OnCellClick(dayIndex: int, slot: int, grid: seq<Column>) returns (request: Option<AddRequest>)
      modifies this
      ensures HitTest(dayIndex, slot, grid).Some? ==> pending == old(pending) && request == None
      ensures HitTest(dayIndex, slot, grid).None? && (old(pending).None? || old(pending).value.dayIndex != dayIndex) ==>
                pending == Some(Pending(dayIndex, slot)) && request == None
      ensures HitTest(dayIndex, slot, grid).None? && old(pending).Some? && old(pending).value.dayIndex == dayIndex ==>
                && pending == None
                && request == Some(AddRequest(dayIndex, Min(old(pending).value.slot, slot), Max(old(pending).value.slot, slot)))
      ensures request.Some? ==>
                && request.value.startSlot <= request.value.endSlot
                && {request.value.startSlot, request.value.endSlot} == {old(pending).value.slot, slot}
    {
      var hit := HitTest(dayIndex, slot, grid);
      if hit.Some? {
        return None;
      }
      if pending.None? {
        pending := Some(Pending(dayIndex, slot));
        return None;
      }
      if pending.value.dayIndex != dayIndex {
        pending := Some(Pending(dayIndex, slot));
        return None;
      }
      var a := Min(pending.value.slot, slot);
      var b := Max(pending.value.slot, slot);
      request := Some(AddRequest(dayIndex, a, b));
      pending := None;
    }
  }
}
