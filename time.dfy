/** The weekly time model of src/lib/time.js: the fixed Monday anchor, the
    conversion from a local wall-clock time to an instant, day bucketing
    relative to the anchor, the split of an instant range into per-local-day
    segments, the overlap test and the time labels. */
module Time {
  import opened Prelude
  import opened Civil

  /** Milliseconds since 1970-01-01T00:00:00Z. */
  type Instant = int

  /** A time zone as the host's time-zone database resolves it: the local
      wall-clock fields (what `fmtParts(date, tz)` returns) at each instant. */
  type TimeZone = Instant -> DateTime

  /** The week anchor: Monday 2025-01-06 00:00 UTC, as milliseconds. */
  const RefMondayUtc: Instant := 1736121600000

  /** The anchor is `Date.UTC(2025, 0, 6, 0, 0, 0, 0)` and falls on a Monday
      (ECMAScript WeekDay: (day number + 4) mod 7, with Monday = 1). */
  lemma RefMondayIsMonday()
    ensures RefMondayUtc == DateUtc(2025, 0, 6, 0, 0, 0, 0)
    ensures RefMondayUtc % MsPerDay == 0 && (RefMondayUtc / MsPerDay + 4) % 7 == 1
  {
    assert DaysFromCivil(2025, 1, 1) == 20089;
  }

  /** `fmtParts(date, tz)` and `utcToLocalParts(date, tz)`: the wall-clock
      fields of instant `t` in `zone`. */
  function LocalParts(zone: TimeZone, t: Instant): DateTime {
    zone(t)
  }

  /** The zone's wall clock at `t` is UTC shifted by `k` minutes. */
  predicate OffsetAt(zone: TimeZone, t: Instant, k: int) {
    zone(t) == DateTimeOfTime(t + k * MsPerMinute)
  }

  /** `minutesSinceEpochUTC(y, m, d, h, mm, s)`: whole minutes from the epoch
      to the given fields read as UTC (month 1-based). */
  function MinutesSinceEpochUtc(y: int, m: int, d: int, h: int, mm: int, s: int := 0): int {
    DateUtc(y, m - 1, d, h, mm, s, 0) / MsPerMinute
  }

  /** Whether the host's wall clock in `zone` at `t` is outside years 0..99,
      which Date.UTC would read as 1900..1999. */
  predicate OutsideTwoDigitYears(zone: TimeZone, t: Instant) {
    !(0 <= LocalParts(zone, t).year <= 99)
  }

  // ---------------------------------------------------------------------
  // localToUtc

  /** The minute number Date.UTC gives the date, hour and minute of `p`. */
  function PartsMinutes(p: DateTime): int {
    MinutesSinceEpochUtc(p.year, p.month, p.day, p.hour, p.minute)
  }

  /** The `have` of localToUtc: the wall clock in `zone` at `u`, in minutes. */
  function WallMinutes(zone: TimeZone, u: Instant): int {
    PartsMinutes(LocalParts(zone, u))
  }

  /** The correction loop of localToUtc from guess `u`, with `budget`
      corrections left: stop when the wall clock at the guess is the wanted
      one, otherwise move the guess by the difference. */
  function Correct(zone: TimeZone, want: int, u: Instant, budget: nat): Instant
    decreases budget
  {
    if budget == 0 then u
    else
      var diffMin := WallMinutes(zone, u) - want;
      if diffMin == 0 then u else Correct(zone, want, u - diffMin * MsPerMinute, budget - 1)
  }

  /** The instant localToUtc returns for wall-clock time y-m-d h:mm in `zone`:
      at most three corrections of the guess that reads the fields as UTC. */
  function LocalToUtcResult(zone: TimeZone, y: int, m: int, d: int, h: int, mm: int): Instant {
    Correct(zone, MinutesSinceEpochUtc(y, m, d, h, mm), DateUtc(y, m - 1, d, h, mm, 0, 0), 3)
  }

  /** `localToUtc(tz, y, m, d, h, mm)`. */
  method LocalToUtc(zone: TimeZone, y: int, m: int, d: int, h: int, mm: int) returns (u: Instant)
    ensures u == LocalToUtcResult(zone, y, m, d, h, mm)
  {
    ghost var want := MinutesSinceEpochUtc(y, m, d, h, mm);
    u := DateUtc(y, m - 1, d, h, mm, 0, 0);
    for i := 0 to 3
      invariant Correct(zone, want, u, 3 - i) == LocalToUtcResult(zone, y, m, d, h, mm)
    {
      var p := LocalParts(zone, u);
      var wantMin := MinutesSinceEpochUtc(y, m, d, h, mm);
      var have := MinutesSinceEpochUtc(p.year, p.month, p.day, p.hour, p.minute);
      var diffMin := have - wantMin;
      if diffMin == 0 {
        break;
      }
      u := u - diffMin * MsPerMinute;
    }
  }

  /** Each correction moves the guess by whole minutes, so the result lies on
      the minute grid of the first guess. */
  lemma {:induction false} CorrectOnGrid(zone: TimeZone, want: int, u: Instant, budget: nat)
    ensures (Correct(zone, want, u, budget) - u) % MsPerMinute == 0
    decreases budget
  {
    if budget > 0 {
      var diffMin := WallMinutes(zone, u) - want;
      if diffMin != 0 {
        var u' := u - diffMin * MsPerMinute;
        CorrectOnGrid(zone, want, u', budget - 1);
        var rest := Correct(zone, want, u', budget - 1) - u';
        assert Correct(zone, want, u, budget) - u == rest - diffMin * MsPerMinute;
        WholeMinutesStep(rest, diffMin);
      }
    }
  }

  /** Whole minutes less whole minutes are whole minutes. */
  lemma WholeMinutesStep(a: int, k: int)
    requires a % MsPerMinute == 0
    ensures (a - k * MsPerMinute) % MsPerMinute == 0
  {
    var q := a / MsPerMinute;
    assert a == 60000 * q;
    assert a - k * MsPerMinute == 60000 * (q - k);
  }

  /** localToUtc answers a whole minute whenever its first guess is one: the
      instant differs from Date.UTC of the wanted fields by whole minutes. */
  lemma LocalToUtcOnGrid(zone: TimeZone, y: int, m: int, d: int, h: int, mm: int)
    ensures (LocalToUtcResult(zone, y, m, d, h, mm) - DateUtc(y, m - 1, d, h, mm, 0, 0)) % MsPerMinute == 0
  {
    CorrectOnGrid(zone, MinutesSinceEpochUtc(y, m, d, h, mm), DateUtc(y, m - 1, d, h, mm, 0, 0), 3);
  }

  /** Reading the fields of a time value back through Date.UTC gives its
      minute. */
  lemma PartsMinutesOfTime(t: int)
    requires !(0 <= DateTimeOfTime(t).year <= 99)
    ensures PartsMinutes(DateTimeOfTime(t)) == t / MsPerMinute
  {
    DateUtcOfDateTimeMinutes(t);
  }

  /** Where the zone is `k` minutes off UTC, the wall clock in minutes is
      the instant's minute plus `k`. */
  lemma WallMinutesAtOffset(zone: TimeZone, u: Instant, k: int)
    requires OffsetAt(zone, u, k) && OutsideTwoDigitYears(zone, u)
    ensures WallMinutes(zone, u) == u / MsPerMinute + k
  {
    PartsMinutesOfTime(u + k * MsPerMinute);
    ShiftByMinutes(u, k);
  }

  lemma ShiftByMinutes(u: int, k: int)
    ensures (u + k * MsPerMinute) / MsPerMinute == u / MsPerMinute + k
  { }

  /** The guess localToUtc starts from is a whole minute, and the wanted wall
      clock is that minute. */
  lemma NaiveGuess(y: int, m: int, d: int, h: int, mm: int)
    ensures DateUtc(y, m - 1, d, h, mm, 0, 0) % MsPerMinute == 0
    ensures MinutesSinceEpochUtc(y, m, d, h, mm) * MsPerMinute == DateUtc(y, m - 1, d, h, mm, 0, 0)
  {
    var k := MakeDay(MakeFullYear(y), m - 1, d) * 1440 + h * 60 + mm;
    assert DateUtc(y, m - 1, d, h, mm, 0, 0) == 60000 * k;
  }

  /** When the zone is `k` minutes off UTC both at the naive guess and at the
      guess moved back by `k` minutes (no offset change in between),
      localToUtc returns the guess minus the offset after a single
      correction, and the wall clock there is the requested one. */
  lemma LocalToUtcSteadyOffset(zone: TimeZone, k: int, y: int, m: int, d: int, h: int, mm: int)
    requires var u0 := DateUtc(y, m - 1, d, h, mm, 0, 0);
             OffsetAt(zone, u0, k) && OffsetAt(zone, u0 - k * MsPerMinute, k)
             && OutsideTwoDigitYears(zone, u0) && OutsideTwoDigitYears(zone, u0 - k * MsPerMinute)
    ensures var r := LocalToUtcResult(zone, y, m, d, h, mm);
            r == DateUtc(y, m - 1, d, h, mm, 0, 0) - k * MsPerMinute
            && WallMinutes(zone, r) == MinutesSinceEpochUtc(y, m, d, h, mm)
  {
    var u0 := DateUtc(y, m - 1, d, h, mm, 0, 0);
    var want := MinutesSinceEpochUtc(y, m, d, h, mm);
    NaiveGuess(y, m, d, h, mm);
    WallMinutesAtOffset(zone, u0, k);
    assert u0 / MsPerMinute == want;
    var u1 := u0 - k * MsPerMinute;
    WallMinutesAtOffset(zone, u1, k);
    assert u1 / MsPerMinute == want - k;
    assert WallMinutes(zone, u1) == want;
    if k != 0 {
      assert Correct(zone, want, u0, 3) == Correct(zone, want, u1, 2);
    }
  }

  /** A zone whose wall clock is always UTC shifted by `k` minutes (UTC,
      Etc/GMT+5, ...). */
  ghost predicate FixedOffsetZone(zone: TimeZone, k: int) {
    forall t :: OffsetAt(zone, t, k)
  }

  /** The two instants localToUtc reads for wall-clock time y-m-d h:mm in a
      zone `k` minutes off UTC, the naive guess and the guess moved back by
      `k` minutes, show years outside 0..99 there, so Date.UTC reads their
      fields back unchanged. */
  predicate GuessesReadable(zone: TimeZone, k: int, y: int, m: int, d: int, h: int, mm: int) {
    var u0 := DateUtc(y, m - 1, d, h, mm, 0, 0);
    OutsideTwoDigitYears(zone, u0) && OutsideTwoDigitYears(zone, u0 - k * MsPerMinute)
  }

  /** In a zone with a fixed offset of `k` minutes, localToUtc is the naive
      UTC reading minus the offset, reached after one correction. */
  lemma LocalToUtcFixedOffset(zone: TimeZone, k: int, y: int, m: int, d: int, h: int, mm: int)
    requires FixedOffsetZone(zone, k)
    requires GuessesReadable(zone, k, y, m, d, h, mm)
    ensures LocalToUtcResult(zone, y, m, d, h, mm) == DateUtc(y, m - 1, d, h, mm, 0, 0) - k * MsPerMinute
  {
    var u0 := DateUtc(y, m - 1, d, h, mm, 0, 0);
    assert OffsetAt(zone, u0, k) && OffsetAt(zone, u0 - k * MsPerMinute, k);
    LocalToUtcSteadyOffset(zone, k, y, m, d, h, mm);
  }

  /** Central European winter time, UTC+1. */
  function UtcPlusOne(t: Instant): DateTime {
    DateTimeOfTime(t + 60 * MsPerMinute)
  }

  /** UTC+1 is a fixed-offset zone. */
  lemma UtcPlusOneFixed()
    ensures FixedOffsetZone(UtcPlusOne, 60)
  {
    forall t ensures OffsetAt(UtcPlusOne, t, 60) { }
  }

  /** In UTC+1 the guesses localToUtc reads for an existing wall-clock time
      before 23:00 of a year outside 0..99 are readable, so
      `LocalToUtcFixedOffset` applies to it. */
  lemma UtcPlusOneReadable(y: int, m: int, d: int, h: int, mm: int)
    requires ValidDateTime(DateTime(y, m, d, h, mm, 0)) && h < 23 && !(0 <= y <= 99)
    ensures GuessesReadable(UtcPlusOne, 60, y, m, d, h, mm)
  {
    var u0 := DateUtc(y, m - 1, d, h, mm, 0, 0);
    var u1 := DateUtc(y, m - 1, d, h + 1, mm, 0, 0);
    assert u0 + 60 * MsPerMinute == u1;
    DateTimeOfDateUtc(DateTime(y, m, d, h, mm, 0));
    DateTimeOfDateUtc(DateTime(y, m, d, h + 1, mm, 0));
  }

  /** Distinct existing wall-clock minutes have distinct minute numbers. */
  lemma PartsMinutesInjective(p: DateTime, q: DateTime)
    requires ValidDateTime(p) && ValidDateTime(q) && !(0 <= p.year <= 99) && !(0 <= q.year <= 99)
    requires PartsMinutes(p) == PartsMinutes(q)
    ensures p.year == q.year && p.month == q.month && p.day == q.day && p.hour == q.hour && p.minute == q.minute
  {
    NaiveGuess(p.year, p.month, p.day, p.hour, p.minute);
    NaiveGuess(q.year, q.month, q.day, q.hour, q.minute);
    DateTimeOfDateUtc(p.(second := 0));
    DateTimeOfDateUtc(q.(second := 0));
  }

  /** When localToUtc stops because the wall clock matches, and the requested
      time exists on the calendar, the result's local year, month, day, hour
      and minute are the requested ones. */
  lemma LocalToUtcConverged(zone: TimeZone, y: int, m: int, d: int, h: int, mm: int)
    requires ValidDateTime(DateTime(y, m, d, h, mm, 0)) && !(0 <= y <= 99)
    requires var r := LocalToUtcResult(zone, y, m, d, h, mm);
             ValidDateTime(zone(r)) && OutsideTwoDigitYears(zone, r)
             && WallMinutes(zone, r) == MinutesSinceEpochUtc(y, m, d, h, mm)
    ensures var p := LocalParts(zone, LocalToUtcResult(zone, y, m, d, h, mm));
            p.year == y && p.month == m && p.day == d && p.hour == h && p.minute == mm
  {
    var r := LocalToUtcResult(zone, y, m, d, h, mm);
    PartsMinutesInjective(zone(r), DateTime(y, m, d, h, mm, 0));
  }

  /** Hour 24 of day d is hour 0 of day d + 1, for every zone: the grid's last
      slot ends at the next day's midnight. */
  lemma LocalToUtcHour24(zone: TimeZone, y: int, m: int, d: int)
    ensures LocalToUtcResult(zone, y, m, d, 24, 0) == LocalToUtcResult(zone, y, m, d + 1, 0, 0)
  {
    DateUtcRollsOver(y, m - 1, d, 0, 0);
  }

  // ---------------------------------------------------------------------
  // Day buckets

  /** Day number of the date part of `p`, as Date.UTC counts it. */
  function DayNumber(p: DateTime): int {
    MakeDay(MakeFullYear(p.year), p.month - 1, p.day)
  }

  /** The day index of date `parts` counted from date `base`. */
  function DayIndexFrom(base: DateTime, parts: DateTime): int {
    var mondayMinutes := MinutesSinceEpochUtc(base.year, base.month, base.day, 0, 0);
    var localMinutes := MinutesSinceEpochUtc(parts.year, parts.month, parts.day, 0, 0);
    var deltaDays := (localMinutes - mondayMinutes) / MinutesPerDay;
    JsRem(JsRem(deltaDays, 7) + 7, 7)
  }

  /** The index is the number of days from `base` to `parts`, reduced
      modulo 7 to 0..6. */
  lemma DayIndexFromIsDayDistance(base: DateTime, parts: DateTime)
    ensures DayIndexFrom(base, parts) == (DayNumber(parts) - DayNumber(base)) % 7
  {
    var delta := DayNumber(parts) - DayNumber(base);
    assert MinutesSinceEpochUtc(parts.year, parts.month, parts.day, 0, 0) == DayNumber(parts) * MinutesPerDay;
    assert MinutesSinceEpochUtc(base.year, base.month, base.day, 0, 0) == DayNumber(base) * MinutesPerDay;
    WeekRemNormalised(delta);
  }

  /** `dayIndexFromParts(parts, tz)`: the day of the week of `parts`,
      counted from the local date of the anchor in the same zone. */
  function DayIndexFromParts(parts: DateTime, zone: TimeZone): (r: int)
    ensures 0 <= r < 7
  {
    DayIndexFrom(LocalParts(zone, RefMondayUtc), parts)
  }

  /** The day index is the number of days between the local date of the
      anchor and the given date, reduced modulo 7 to 0..6. */
  lemma DayIndexIsDayDistance(parts: DateTime, zone: TimeZone)
    ensures DayIndexFromParts(parts, zone) == (DayNumber(parts) - DayNumber(LocalParts(zone, RefMondayUtc))) % 7
  {
    DayIndexFromIsDayDistance(LocalParts(zone, RefMondayUtc), parts);
  }

  /** The local date of the anchor is day 0 in every zone. */
  lemma DayIndexOfAnchor(zone: TimeZone)
    ensures DayIndexFromParts(LocalParts(zone, RefMondayUtc), zone) == 0
  {
    DayIndexIsDayDistance(LocalParts(zone, RefMondayUtc), zone);
  }

  /** Moving a date by one day moves its index from `base` by one,
      cyclically; moving it by a week leaves the index unchanged. */
  lemma DayIndexFromShift(base: DateTime, parts: DateTime)
    ensures DayIndexFrom(base, parts.(day := parts.day + 1)) == (DayIndexFrom(base, parts) + 1) % 7
    ensures DayIndexFrom(base, parts.(day := parts.day + 7)) == DayIndexFrom(base, parts)
  {
    var delta := DayNumber(parts) - DayNumber(base);
    DayIndexFromIsDayDistance(base, parts);
    DayIndexFromIsDayDistance(base, parts.(day := parts.day + 1));
    DayIndexFromIsDayDistance(base, parts.(day := parts.day + 7));
    DayNumberShift(parts, 1);
    DayNumberShift(parts, 7);
    WeekRemShift(delta);
  }

  /** Moving the day of the month by `k` moves the day number by `k`. */
  lemma DayNumberShift(p: DateTime, k: int)
    ensures DayNumber(p.(day := p.day + k)) == DayNumber(p) + k
  {
  }

  /** The same for the index in a zone: it is 7-day periodic and advances
      by one per day. */
  lemma DayIndexShift(parts: DateTime, zone: TimeZone)
    ensures DayIndexFromParts(parts.(day := parts.day + 1), zone) == (DayIndexFromParts(parts, zone) + 1) % 7
    ensures DayIndexFromParts(parts.(day := parts.day + 7), zone) == DayIndexFromParts(parts, zone)
  {
    DayIndexFromShift(LocalParts(zone, RefMondayUtc), parts);
  }

  // ---------------------------------------------------------------------
  // splitRangeByLocalDays
  //
  // One round of the loop is a function of the cursor: the segment it
  // pushes. The shape of the loop's output does not depend on how that
  // segment is computed, only on the segment starting at the cursor and
  // ending after it and by the range end; so the loop is described over
  // any such step function, and Segments fixes the step a zone gives.

  /** One emitted piece: the day bucket and the instants it spans. */
  datatype DaySegment = DaySegment(dayIndex: int, startMs: Instant, endMs: Instant)

  /** Iteration cap of the segmenter's loop. */
  const SegmentGuard: nat := 8

  /** The segment one loop iteration pushes at cursor `cur` with day bucket
      `day`: up to `endOfDay`, or to the range end if that comes first; if
      that end is not after `cur`, up to one hour later instead. */
  function SegmentAt(day: int, endOfDay: Instant, cur: Instant, endUtc: Instant): (seg: DaySegment)
    ensures seg.dayIndex == day && seg.startMs == cur
    ensures cur < endUtc ==> cur < seg.endMs <= endUtc
    ensures cur < endOfDay <= endUtc ==> seg.endMs == endOfDay
  {
    var segEnd := Min(endUtc, endOfDay);
    var segEnd' := if segEnd <= cur then Min(endUtc, cur + MsPerHour) else segEnd;
    DaySegment(day, cur, segEnd')
  }

  /** The day bucket of the local date at instant `c`. */
  function DayIndexAt(zone: TimeZone, c: Instant): int {
    DayIndexFromParts(LocalParts(zone, c), zone)
  }

  /** The instant of 23:59 on the local date of instant `c`, as localToUtc
      computes it. */
  function EndOfLocalDayAt(zone: TimeZone, c: Instant): Instant {
    var p := LocalParts(zone, c);
    LocalToUtcResult(zone, p.year, p.month, p.day, 23, 59)
  }

  /** The segment the loop pushes at cursor `c` in `zone`. */
  function StepIn(zone: TimeZone, endUtc: Instant, c: Instant): DaySegment {
    SegmentAt(DayIndexAt(zone, c), EndOfLocalDayAt(zone, c), c, endUtc)
  }

  /** What the loop returns when it continues from state (`done`, `cur`,
      `guard`) with step `next`: the segments pushed so far once the cursor
      has reached the range end or 8 rounds have run, otherwise what one
      more round gives. */
  function LoopResult(next: Instant -> DaySegment, done: seq<DaySegment>,
                      cur: Instant, endUtc: Instant, guard: nat): seq<DaySegment>
    decreases SegmentGuard - guard, 1
  {
    if cur < endUtc && guard < SegmentGuard then LoopRound(next, done, cur, endUtc, guard)
    else done
  }

  /** One round of the loop: push the segment at the cursor, move the
      cursor one second past its end and count the round. */
  function LoopRound(next: Instant -> DaySegment, done: seq<DaySegment>,
                     cur: Instant, endUtc: Instant, guard: nat): seq<DaySegment>
    requires guard < SegmentGuard
    decreases SegmentGuard - guard, 0
  {
    var seg := next(cur);
    LoopResult(next, done + [seg], seg.endMs + MsPerSecond, endUtc, guard + 1)
  }

  /** The segments of range [startUtc, endUtc) in `zone`. */
  function Segments(zone: TimeZone, startUtc: Instant, endUtc: Instant): seq<DaySegment> {
    LoopResult(c => StepIn(zone, endUtc, c), [], startUtc, endUtc, 0)
  }

  /** Whether `next` is the zone's step wherever the zone's step is
      computed. */
  ghost predicate StepOf(zone: TimeZone, endUtc: Instant, next: Instant -> DaySegment) {
    forall c {:trigger StepIn(zone, endUtc, c)} :: next(c) == StepIn(zone, endUtc, c)
  }

  /** The zone's step, named so that the loop's proof refers to its value
      only at the cursors the loop visits. */
  lemma ZoneStep(zone: TimeZone, startUtc: Instant, endUtc: Instant) returns (next: Instant -> DaySegment)
    ensures StepOf(zone, endUtc, next)
    ensures LoopResult(next, [], startUtc, endUtc, 0) == Segments(zone, startUtc, endUtc)
  {
    next := c => StepIn(zone, endUtc, c);
  }

  /** The body of the loop of splitRangeByLocalDays at cursor `cur`. */
  method NextSegment(zone: TimeZone, cur: Instant, endUtc: Instant, ghost next: Instant -> DaySegment)
    returns (seg: DaySegment)
    requires StepOf(zone, endUtc, next)
    ensures seg == next(cur)
  {
    var p := LocalParts(zone, cur);
    var idx := DayIndexFromParts(p, zone);
    var endOfDayLocal := LocalToUtc(zone, p.year, p.month, p.day, 23, 59);
    var segEnd := Min(endUtc, endOfDayLocal);
    if segEnd <= cur {
      segEnd := Min(endUtc, cur + MsPerHour);
    }
    seg := DaySegment(idx, cur, segEnd);
    assert seg == StepIn(zone, endUtc, cur);
  }

  /** `splitRangeByLocalDays(startUtc, endUtc, tz)`. */
  method SplitRangeByLocalDays(startUtc: Instant, endUtc: Instant, zone: TimeZone)
    returns (segments: seq<DaySegment>)
    ensures segments == Segments(zone, startUtc, endUtc)
  {
    ghost var next := ZoneStep(zone, startUtc, endUtc);
    segments := [];
    var cur := startUtc;
    var guard := 0;
    while cur < endUtc && guard < SegmentGuard
      invariant 0 <= guard <= SegmentGuard
      invariant LoopResult(next, segments, cur, endUtc, guard) == LoopResult(next, [], startUtc, endUtc, 0)
      decreases SegmentGuard - guard
    {
      var seg := NextSegment(zone, cur, endUtc, next);
      LoopResultStep(next, segments, cur, endUtc, guard, seg);
      segments := segments + [seg];
      cur := seg.endMs + MsPerSecond;
      guard := guard + 1;
    }
  }

  /** One round of the loop, as an equation. */
  lemma LoopResultStep(next: Instant -> DaySegment, done: seq<DaySegment>,
                       cur: Instant, endUtc: Instant, guard: nat, seg: DaySegment)
    requires cur < endUtc && guard < SegmentGuard && seg == next(cur)
    ensures LoopResult(next, done, cur, endUtc, guard)
         == LoopResult(next, done + [seg], seg.endMs + MsPerSecond, endUtc, guard + 1)
  {
    assert LoopResult(next, done, cur, endUtc, guard) == LoopRound(next, done, cur, endUtc, guard);
  }

  /** The segments the loop adds from cursor `cur` after `guard` rounds. */
  function RunFrom(next: Instant -> DaySegment, cur: Instant, endUtc: Instant, guard: nat): seq<DaySegment> {
    LoopResult(next, [], cur, endUtc, guard)
  }

  /** The segments already pushed stay in front of those the rest of the
      loop adds. */
  lemma {:induction false} LoopResultSplit(next: Instant -> DaySegment, done: seq<DaySegment>,
                                           cur: Instant, endUtc: Instant, guard: nat)
    ensures LoopResult(next, done, cur, endUtc, guard) == done + RunFrom(next, cur, endUtc, guard)
    decreases SegmentGuard - guard
  {
    if cur < endUtc && guard < SegmentGuard {
      var seg := next(cur);
      var after := seg.endMs + MsPerSecond;
      var rest := RunFrom(next, after, endUtc, guard + 1);
      LoopResultStep(next, done, cur, endUtc, guard, next(cur));
      LoopResultStep(next, [], cur, endUtc, guard, next(cur));
      LoopResultSplit(next, done + [seg], after, endUtc, guard + 1);
      LoopResultSplit(next, [seg], after, endUtc, guard + 1);
      assert [] + [seg] == [seg];
      assert (done + [seg]) + rest == done + ([seg] + rest);
    }
  }

  /** One round, on the segments the loop adds: the segment at the cursor,
      then those from one second after its end. */
  lemma RunFromStep(next: Instant -> DaySegment, cur: Instant, endUtc: Instant, guard: nat)
    requires cur < endUtc && guard < SegmentGuard
    ensures RunFrom(next, cur, endUtc, guard)
         == [next(cur)] + RunFrom(next, next(cur).endMs + MsPerSecond, endUtc, guard + 1)
  {
    LoopResultStep(next, [], cur, endUtc, guard, next(cur));
    LoopResultSplit(next, [next(cur)], next(cur).endMs + MsPerSecond, endUtc, guard + 1);
    assert [] + [next(cur)] == [next(cur)];
  }

  /** Whether each step before the range end starts at the cursor and ends
      after it and by the range end. */
  ghost predicate Advances(next: Instant -> DaySegment, endUtc: Instant) {
    forall c :: c < endUtc ==> next(c).startMs == c < next(c).endMs <= endUtc
  }

  /** The shape of what the loop adds from cursor `cur` with `rounds`
      rounds left: nothing when the cursor has reached the range end or no
      round is left; otherwise a non-empty segment that starts at the cursor
      and ends by the range end, followed by what the loop adds from one
      second after that end, with one round fewer. */
  predicate IsRun(segs: seq<DaySegment>, cur: Instant, endUtc: Instant, rounds: nat)
    decreases |segs|
  {
    if segs == [] then cur >= endUtc || rounds == 0
    else
      && rounds > 0 && cur < endUtc
      && segs[0].startMs == cur < segs[0].endMs <= endUtc
      && IsRun(segs[1..], segs[0].endMs + MsPerSecond, endUtc, rounds - 1)
  }

  /** With an advancing step, what the loop adds from cursor `cur` after
      `guard` rounds is a run with the remaining rounds. */
  lemma {:induction false} RunFromIsRun(next: Instant -> DaySegment, cur: Instant, endUtc: Instant, guard: nat)
    requires Advances(next, endUtc) && guard <= SegmentGuard
    ensures IsRun(RunFrom(next, cur, endUtc, guard), cur, endUtc, SegmentGuard - guard)
    decreases SegmentGuard - guard
  {
    if cur < endUtc && guard < SegmentGuard {
      var seg := next(cur);
      var rest := RunFrom(next, seg.endMs + MsPerSecond, endUtc, guard + 1);
      RunFromStep(next, cur, endUtc, guard);
      RunFromIsRun(next, seg.endMs + MsPerSecond, endUtc, guard + 1);
      assert ([seg] + rest)[1..] == rest;
    } else {
      assert RunFrom(next, cur, endUtc, guard) == [];
    }
  }

  /** Whether each segment is the step taken at its own start. */
  predicate StepsAtStarts(next: Instant -> DaySegment, segs: seq<DaySegment>) {
    forall i :: 0 <= i < |segs| ==> segs[i] == next(segs[i].startMs)
  }

  /** With an advancing step, every segment the loop adds is the step taken
      at its start. */
  lemma {:induction false} RunFromSteps(next: Instant -> DaySegment, cur: Instant, endUtc: Instant, guard: nat)
    requires Advances(next, endUtc) && guard <= SegmentGuard
    ensures StepsAtStarts(next, RunFrom(next, cur, endUtc, guard))
    decreases SegmentGuard - guard
  {
    if cur < endUtc && guard < SegmentGuard {
      var seg := next(cur);
      var rest := RunFrom(next, seg.endMs + MsPerSecond, endUtc, guard + 1);
      RunFromStep(next, cur, endUtc, guard);
      RunFromSteps(next, seg.endMs + MsPerSecond, endUtc, guard + 1);
      var segs := [seg] + rest;
      forall i | 0 < i < |segs|
        ensures segs[i] == next(segs[i].startMs)
      {
        assert segs[i] == rest[i - 1];
      }
    } else {
      assert RunFrom(next, cur, endUtc, guard) == [];
    }
  }

  /** A run has at most one segment per round; it is empty exactly when the
      cursor has reached the range end or no round is left, and otherwise
      starts at the cursor. */
  lemma {:induction false} RunCount(segs: seq<DaySegment>, cur: Instant, endUtc: Instant, rounds: nat)
    requires IsRun(segs, cur, endUtc, rounds)
    ensures |segs| <= rounds
    ensures segs == [] <==> (cur >= endUtc || rounds == 0)
    ensures segs != [] ==> segs[0].startMs == cur
    decreases |segs|
  {
    if segs != [] {
      RunCount(segs[1..], segs[0].endMs + MsPerSecond, endUtc, rounds - 1);
    }
  }

  /** Every segment of a run is non-empty and lies between the cursor and
      the range end. */
  lemma {:induction false} RunWithin(segs: seq<DaySegment>, cur: Instant, endUtc: Instant, rounds: nat)
    requires IsRun(segs, cur, endUtc, rounds)
    ensures forall i :: 0 <= i < |segs| ==> cur <= segs[i].startMs < segs[i].endMs <= endUtc
    decreases |segs|
  {
    if segs != [] {
      RunWithin(segs[1..], segs[0].endMs + MsPerSecond, endUtc, rounds - 1);
      forall i | 0 < i < |segs|
        ensures cur <= segs[i].startMs < segs[i].endMs <= endUtc
      {
        assert segs[i] == segs[1..][i - 1];
      }
    }
  }

  /** In a run each segment after the first starts one second after the
      previous one ends. */
  lemma {:induction false} RunChained(segs: seq<DaySegment>, cur: Instant, endUtc: Instant, rounds: nat)
    requires IsRun(segs, cur, endUtc, rounds)
    ensures forall i :: 0 < i < |segs| ==> segs[i].startMs == segs[i - 1].endMs + MsPerSecond
    decreases |segs|
  {
    if segs != [] {
      var rest := segs[1..];
      RunChained(rest, segs[0].endMs + MsPerSecond, endUtc, rounds - 1);
      RunCount(rest, segs[0].endMs + MsPerSecond, endUtc, rounds - 1);
      forall i | 1 < i < |segs|
        ensures segs[i].startMs == segs[i - 1].endMs + MsPerSecond
      {
        assert segs[i] == rest[i - 1] && segs[i - 1] == rest[i - 2];
      }
    }
  }

  /** A run shorter than its rounds stopped because the cursor one second
      after its last segment reached the range end. */
  lemma {:induction false} RunStop(segs: seq<DaySegment>, cur: Instant, endUtc: Instant, rounds: nat)
    requires IsRun(segs, cur, endUtc, rounds)
    requires segs != [] && |segs| < rounds
    ensures endUtc <= segs[|segs| - 1].endMs + MsPerSecond
    decreases |segs|
  {
    var rest := segs[1..];
    if rest == [] {
      assert IsRun(rest, segs[0].endMs + MsPerSecond, endUtc, rounds - 1);
    } else {
      RunStop(rest, segs[0].endMs + MsPerSecond, endUtc, rounds - 1);
      assert rest[|rest| - 1] == segs[|segs| - 1];
    }
  }

  /** The loop outputs nothing for an empty or reversed range; otherwise at
      most 8 segments, the first starting at the range start, strictly
      ordered with a one-second step between them, each inside the range;
      when fewer than 8 are output, the last one reaches to within a second
      of the range end. */
  predicate Shaped(segs: seq<DaySegment>, startUtc: Instant, endUtc: Instant) {
    && |segs| <= 8
    && (startUtc >= endUtc <==> segs == [])
    && (segs != [] ==> segs[0].startMs == startUtc)
    && (forall i :: 0 <= i < |segs| ==> startUtc <= segs[i].startMs < segs[i].endMs <= endUtc)
    && (forall i :: 0 < i < |segs| ==> segs[i].startMs == segs[i - 1].endMs + 1000)
    && (|segs| < 8 && segs != [] ==> endUtc <= segs[|segs| - 1].endMs + 1000)
  }

  /** With an advancing step the loop's output is shaped. */
  lemma RunShape(next: Instant -> DaySegment, startUtc: Instant, endUtc: Instant)
    requires Advances(next, endUtc)
    ensures Shaped(RunFrom(next, startUtc, endUtc, 0), startUtc, endUtc)
  {
    var segs := RunFrom(next, startUtc, endUtc, 0);
    RunFromIsRun(next, startUtc, endUtc, 0);
    RunCount(segs, startUtc, endUtc, SegmentGuard);
    RunWithin(segs, startUtc, endUtc, SegmentGuard);
    RunChained(segs, startUtc, endUtc, SegmentGuard);
    if segs != [] && |segs| < SegmentGuard {
      RunStop(segs, startUtc, endUtc, SegmentGuard);
    }
  }

  /** The zone's step advances. */
  lemma ZoneStepAdvances(zone: TimeZone, endUtc: Instant)
    ensures Advances(c => StepIn(zone, endUtc, c), endUtc)
  {
  }

  /** The segments of splitRangeByLocalDays are shaped. */
  lemma SegmentsShape(zone: TimeZone, startUtc: Instant, endUtc: Instant)
    ensures Shaped(Segments(zone, startUtc, endUtc), startUtc, endUtc)
  {
    ZoneStepAdvances(zone, endUtc);
    RunShape(c => StepIn(zone, endUtc, c), startUtc, endUtc);
  }

  /** Each segment of splitRangeByLocalDays is what one round computes at
      its start: it carries the day index 0..6 of the local date there, and
      ends at the local 23:59 of that date when that lies after its start
      and by the range end. */
  lemma SegmentsLabelled(zone: TimeZone, startUtc: Instant, endUtc: Instant)
    ensures var segs := Segments(zone, startUtc, endUtc);
            forall i :: 0 <= i < |segs| ==> segs[i] == StepIn(zone, endUtc, segs[i].startMs)
  {
    ZoneStepAdvances(zone, endUtc);
    RunFromSteps(c => StepIn(zone, endUtc, c), startUtc, endUtc, 0);
  }

  // ---------------------------------------------------------------------
  // overlaps

  /** `overlaps(aStart, aEnd, bStart, bEnd)` on half-open intervals. */
  function Overlaps(aStart: Instant, aEnd: Instant, bStart: Instant, bEnd: Instant): bool {
    aStart < bEnd && bStart < aEnd
  }

  predicate InInterval(t: Instant, lo: Instant, hi: Instant) {
    lo <= t < hi
  }

  /** Two non-empty half-open intervals overlap exactly when some instant
      lies in both. */
  lemma OverlapsMeansSharedInstant(aStart: Instant, aEnd: Instant, bStart: Instant, bEnd: Instant)
    requires aStart < aEnd && bStart < bEnd
    ensures Overlaps(aStart, aEnd, bStart, bEnd) <==>
            exists t :: InInterval(t, aStart, aEnd) && InInterval(t, bStart, bEnd)
  {
    if Overlaps(aStart, aEnd, bStart, bEnd) {
      var t := Max(aStart, bStart);
      assert InInterval(t, aStart, aEnd) && InInterval(t, bStart, bEnd);
    }
  }

  /** The test is symmetric, and intervals that only touch do not overlap. */
  lemma OverlapsSymmetric(aStart: Instant, aEnd: Instant, bStart: Instant, bEnd: Instant)
    ensures Overlaps(aStart, aEnd, bStart, bEnd) == Overlaps(bStart, bEnd, aStart, aEnd)
    ensures !Overlaps(aStart, aEnd, aEnd, bEnd)
    ensures !Overlaps(0, 30, 30, 60)
  {
  }

  // ---------------------------------------------------------------------
  // Labels

  /** `minutesOfDay(h, m)`. */
  function MinutesOfDay(h: int, m: int): int {
    h * 60 + m
  }

  /** A wall-clock hour and minute are recovered from their minute of day. */
  lemma MinutesOfDayInverse(h: int, m: int)
    requires 0 <= h < 24 && 0 <= m < 60
    ensures 0 <= MinutesOfDay(h, m) < MinutesPerDay
    ensures MinutesOfDay(h, m) / 60 == h && MinutesOfDay(h, m) % 60 == m
  {
  }

  function DigitChar(d: int): char
    requires 0 <= d < 10
  {
    ('0' as int + d) as char
  }

  function DigitValue(c: char): int {
    c as int - '0' as int
  }

  predicate IsDigit(c: char) {
    '0' <= c <= '9'
  }

  /** Decimal digits of a natural number, most significant first. */
  function NatString(n: nat): (s: string)
    ensures |s| >= 1 && forall i :: 0 <= i < |s| ==> IsDigit(s[i])
    decreases n
  {
    if n < 10 then [DigitChar(n)] else NatString(n / 10) + [DigitChar(n % 10)]
  }

  /** `String(n)` for an integer. */
  function DecimalString(n: int): string {
    if n < 0 then "-" + NatString(-n) else NatString(n)
  }

  /** The number a string of decimal digits denotes. */
  function DigitsValue(s: string): int
    decreases |s|
  {
    if s == [] then 0 else DigitsValue(s[..|s| - 1]) * 10 + DigitValue(s[|s| - 1])
  }

  /** Reading the digits of a natural number back gives the number. */
  lemma {:induction false} NatStringValue(n: nat)
    ensures DigitsValue(NatString(n)) == n
    decreases n
  {
    var s := NatString(n);
    if n >= 10 {
      NatStringValue(n / 10);
      assert s[..|s| - 1] == NatString(n / 10);
    }
  }

  /** `pad2(n)`: `String(n).padStart(2, '0')`. */
  function Pad2(n: int): string {
    var s := DecimalString(n);
    if |s| >= 2 then s else "0" + s
  }

  /** For 0..99, pad2 gives exactly two digits that read back as the number. */
  lemma Pad2TwoDigits(n: int)
    requires 0 <= n < 100
    ensures var s := Pad2(n);
            |s| == 2 && IsDigit(s[0]) && IsDigit(s[1]) && DigitValue(s[0]) * 10 + DigitValue(s[1]) == n
  {
    if n >= 10 {
      NatStringValue(n);
      assert NatString(n) == NatString(n / 10) + [DigitChar(n % 10)];
    }
  }

  /** `labelHM(h, m)`. */
  function LabelHM(h: int, m: int): string {
    Pad2(h) + ":" + Pad2(m)
  }

  /** The hour shown on a 12-hour clock: `((h + 11) % 12) + 1`. */
  function Hour12(h: int): int {
    JsRem(h + 11, 12) + 1
  }

  /** `formatTime(h, m, mode)`: "HH:MM" when mode is "24", otherwise a
      12-hour clock "h:MM AM" / "h:MM PM". */
  function FormatTime(h: int, m: int, mode: string): string {
    if mode == "24" then Pad2(h) + ":" + Pad2(m)
    else DecimalString(Hour12(h)) + ":" + Pad2(m) + " " + (if h >= 12 then "PM" else "AM")
  }

  /** In 24-hour mode a wall-clock time is written as zero-padded HH:MM, and
      the hour and minute read back from the text. */
  lemma FormatTime24(h: int, m: int)
    requires 0 <= h < 24 && 0 <= m < 60
    ensures var s := FormatTime(h, m, "24");
            |s| == 5 && s[2] == ':' && s == LabelHM(h, m)
            && DigitValue(s[0]) * 10 + DigitValue(s[1]) == h
            && DigitValue(s[3]) * 10 + DigitValue(s[4]) == m
  {
    Pad2TwoDigits(h);
    Pad2TwoDigits(m);
  }

  /** On a 12-hour clock the hour is 1..12 and agrees with the 24-hour hour
      modulo 12; midnight and noon both show as 12. */
  lemma Hour12Range(h: int)
    requires 0 <= h < 24
    ensures 1 <= Hour12(h) <= 12 && Hour12(h) % 12 == h % 12
    ensures h % 12 == 0 <==> Hour12(h) == 12
  {
  }

  /** In 12-hour mode the text ends in " PM" exactly from hour 12 on and in
      " AM" before. For a wall-clock time it starts with the 12-hour clock
      hour without padding, which reads back as 1..12 and agrees with the
      hour modulo 12, followed by a colon and the minute in two digits. */
  lemma FormatTime12(h: int, m: int, mode: string)
    requires mode != "24"
    ensures var s := FormatTime(h, m, mode);
            |s| >= 3 && (s[|s| - 3..] == " PM" <==> h >= 12) && (s[|s| - 3..] == " AM" <==> h < 12)
    ensures 0 <= h < 24 && 0 <= m < 60 ==>
              var s, p := FormatTime(h, m, mode), |NatString(Hour12(h))|;
              && |s| == p + 6 && s[..p] == NatString(Hour12(h)) && s[p] == ':'
              && 1 <= DigitsValue(s[..p]) <= 12 && DigitsValue(s[..p]) % 12 == h % 12
              && DigitValue(s[p + 1]) * 10 + DigitValue(s[p + 2]) == m
  {
    var suffix := if h >= 12 then "PM" else "AM";
    TwelveHourLayout(DecimalString(Hour12(h)), Pad2(m), suffix);
    assert (" " + suffix)[1] == (if h >= 12 then 'P' else 'A');
    if 0 <= h < 24 && 0 <= m < 60 {
      Hour12Range(h);
      NatStringValue(Hour12(h));
      Pad2TwoDigits(m);
    }
  }

  /** Where the parts of a 12-hour label sit in the text. */
  lemma TwelveHourLayout(hour: string, minute: string, suffix: string)
    requires |suffix| == 2
    ensures var s := hour + ":" + minute + " " + suffix;
            && |s| == |hour| + |minute| + 4 && s[|s| - 3..] == " " + suffix
            && s[..|hour|] == hour && s[|hour|] == ':'
            && (|minute| == 2 ==> s[|hour| + 1] == minute[0] && s[|hour| + 2] == minute[1])
  {
    var s := hour + ":" + minute + " " + suffix;
    assert s == hour + (":" + minute + " " + suffix);
    assert s == (hour + ":" + minute) + (" " + suffix);
  }

  /** Midnight reads "12:MM AM" and noon "12:MM PM". */
  lemma FormatTimeTwelve(h: int, m: int, mode: string)
    requires mode != "24" && (h == 0 || h == 12)
    ensures FormatTime(h, m, mode) == "12:" + Pad2(m) + (if h == 0 then " AM" else " PM")
  {
    assert Hour12(h) == 12;
    assert DecimalString(12) == "12" by {
      assert NatString(12) == NatString(1) + [DigitChar(2)];
    }
    var suffix := if h == 0 then "AM" else "PM";
    var mm := Pad2(m);
    assert FormatTime(h, m, mode) == "12" + ":" + mm + " " + suffix;
    assert "12" + ":" + mm + " " + suffix == "12:" + mm + (" " + suffix);
  }
}
