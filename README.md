# calendar-convert: a verified model of the sharing, time and grid core

calendar-convert is a single-page availability planner. A user clicks two
half-hour cells in a weekly grid. The clicked span becomes a range of UTC
instants on a fixed reference week, the Monday of which is
2025-01-06 00:00 UTC. The list of ranges and the chosen time zone travel in
the page URL as a compact binary buffer written as unpadded base64url.

This project models the core of that program in Dafny and proves what it
promises:

- `prelude.dfy`: bytes, `Option`/`Result`, and JavaScript's truncating `%`.
- `civil.dfy`: the ECMAScript day arithmetic behind `Date.UTC` (MakeDay and
  MakeDate, section 21.4.1 of ECMA-262) and its inverse, the civil date of a
  day number.
- `time.dfy` models `src/lib/time.js`:
  - the reference Monday;
  - `localToUtc` and its three-step correction loop;
  - day bucketing;
  - the day splitter `splitRangeByLocalDays`;
  - `overlaps`;
  - the formatting helpers.
- `base64url.dfy`: `toBase64Url`/`fromBase64Url`, with `btoa` and `atob`
  written out after section 4 of RFC 4648 and the WHATWG forgiving-base64
  decoder.
- `share.dfy`: `encodeState`, `decodeState` and `clamp16`. The encoder fills
  a byte array through an advancing cursor. The decoder is a cursor loop
  with the checks in the source's order.
- `app.dfy` models `src/App.jsx`:
  - the class `Planner` owns the zone, the list of availabilities, the id
    counter and the three notice flags;
  - `addRange`, `deleteRange` and the load-from-URL branch are its methods;
  - `dayIndexOf`, the `listView` sort and `fmt` are functions.
- `calendar.dfy` models `src/components/AvailabilityCalendar.jsx`:
  - `buildDaySlotMap` is a method filling an array of seven columns;
  - `hitTest`, `findSegment`, `toLabelHM` and `formatSlot` are functions;
  - the class `Selection` carries the pending first click of
    `onCellClick`.

A time zone is an abstract function from a UTC instant to the local
wall-clock fields (`Time.TimeZone`). The host's IANA database is not
modelled. Results that need a concrete zone are stated for any zone whose
offset is known at the instants the code reads and whose wall clock there
shows a year outside 0..99, which `Date.UTC` would reinterpret; UTC+1
(`Time.UtcPlusOne`) is shown to meet these conditions.

Two behaviours of the code, both modelled as written, are worth knowing:

- The day splitter ends each segment at local 23:59. The next segment starts
  one second after the previous one ends. A range that crosses local
  midnight therefore leaves the first half hour after midnight unmarked in
  the grid: its segment for the new day starts after 00:00. The list view
  and the stored instants are unaffected.
- `addRange` and `deleteRange` keep the stored ranges pairwise
  non-overlapping, but loading a shared URL does not check for overlaps.
  `App.LoadKeepsOverlaps` exhibits a ten-byte buffer that decodes to two
  identical ranges.

## Model

| member | source | states |
|---|---|---|
| Prelude.JsRem | src/lib/time.js:99 | JavaScript `%` truncates: the result lies in [0, b) for a non-negative dividend and in (-b, 0] for a negative one |
| Prelude.WeekRemNormalised | src/lib/time.js:99 | `((a % 7) + 7) % 7` with the truncating `%` is the mathematical residue of `a` modulo 7 |
| Civil.DaysFromCivilOfCivil | src/lib/time.js:54-56 | the civil date of a day number has month 1..12 and counts back, via the Date.UTC day count, to the same day number |
| Civil.CivilOfDaysFromCivil | src/lib/time.js:54-56 | for an existing date, the Date.UTC day count broken back into a date gives that date |
| Civil.CivilFromDaysValid | src/lib/time.js:27-52 | the local fields computed from any day number form an existing calendar date |
| Civil.MakeDayOfDate | src/lib/time.js:55 | `Date.UTC(y, m - 1, d)` counts the same days as the civil day number of y-m-d, for month 1..12 |
| Civil.DateTimeOfDateUtc | src/lib/time.js:55 | Date.UTC of an existing wall-clock time outside years 0..99, broken back into fields, gives that wall-clock time |
| Civil.DateUtcOfDateTime | src/lib/time.js:55 | feeding the fields of an instant back to Date.UTC gives the instant truncated to the second, outside years 0..99 |
| Civil.DateUtcRollsOver | src/lib/time.js:61 | Date.UTC normalises overflow: hour h+24 is hour h of the next day, and day d+7 is exactly seven days later |
| Civil.DateTimeOfSameMinute | src/lib/time.js:63-66 | two instants in the same minute have the same local fields down to the minute |
| Time.RefMondayIsMonday | src/lib/time.js:4 | REF_MONDAY_UTC is `Date.UTC(2025, 0, 6)`, a whole day, and falls on a Monday |
| Time.LocalToUtc | src/lib/time.js:59-74 | the loop's result is the three-step correction function `LocalToUtcResult`: start from the fields read as UTC, and subtract the minute difference until it is zero or three corrections are spent |
| Time.LocalToUtcOnGrid | src/lib/time.js:61-71 | the result differs from the naive UTC guess by a whole number of minutes |
| Time.LocalToUtcSteadyOffset | src/lib/time.js:61-72 | if the zone has offset k at the guess and at the guess minus k, the result is the guess minus k minutes, and its wall clock is the wanted minute |
| Time.LocalToUtcFixedOffset | src/lib/time.js:61-72 | in a zone with constant offset k, provided the two guesses the loop reads show years outside 0..99, localToUtc returns the naive UTC guess minus k minutes, i.e. it converges after one correction |
| Time.UtcPlusOneFixed | src/lib/time.js:61-72 | UTC+1 has the constant offset of 60 minutes the convergence result asks for |
| Time.UtcPlusOneReadable | src/lib/time.js:61-72 | in UTC+1, for every existing wall-clock time before 23:00 of a year outside 0..99, both guesses the loop reads show that year, so the convergence result applies |
| Time.LocalToUtcConverged | src/lib/time.js:66-69 | when the loop stops on `diffMin === 0`, the result's local year, month, day, hour and minute equal the requested ones |
| Time.PartsMinutesInjective | src/lib/time.js:54-56 | `minutesSinceEpochUTC` of two existing wall-clock times is equal only when their fields down to the minute are equal |
| Time.LocalToUtcHour24 | src/lib/time.js:59-61 | requesting hour 24 gives the same instant as requesting 00:00 of the next day |
| Time.DayIndexFromParts | src/lib/time.js:92-100 | the day index is always in 0..6 |
| Time.DayIndexIsDayDistance | src/lib/time.js:92-100 | the day index is the number of local days from the reference Monday's local date, modulo 7 |
| Time.DayIndexOfAnchor | src/lib/time.js:92-100 | the local fields of REF_MONDAY_UTC get day index 0 in the same zone |
| Time.DayIndexShift | src/lib/time.js:92-100 | one day later gives the next index modulo 7; seven days later gives the same index |
| Time.SegmentAt | src/lib/time.js:112-117 | a segment starts at the cursor; it ends at the local 23:59 instant when that lies after the cursor within the range, otherwise within the range and after the cursor |
| Time.SplitRangeByLocalDays | src/lib/time.js:103-121 | the while loop returns exactly the segments of the specification function `Segments` |
| Time.SegmentsShape | src/lib/time.js:103-121 | at most 8 segments; none exactly when start ≥ end; the first starts at the range start; each has start < end ≤ range end; each later one starts 1000 ms after the previous end; fewer than 8 only when the last end plus one second reaches the range end |
| Time.SegmentsLabelled | src/lib/time.js:109-117 | each segment is the step taken at its own start instant, so its day index is `dayIndexFromParts` of the local fields at its start |
| Time.OverlapsMeansSharedInstant | src/lib/time.js:123-125 | two non-empty half-open ranges overlap exactly when some instant lies in both |
| Time.OverlapsSymmetric | src/lib/time.js:123-125 | overlaps is symmetric, and ranges that only touch do not overlap: `overlaps(0,30,30,60)` is false |
| Time.MinutesOfDayInverse | src/lib/time.js:88-90 | `h*60+m` for a wall-clock time lies within a day and gives back h and m by division |
| Time.NatStringValue | src/lib/time.js:81-83 | the decimal text of a natural number reads back as that number |
| Time.Pad2TwoDigits | src/lib/time.js:81-83 | pad2 of 0..99 is exactly two digits that read back as the number |
| Time.FormatTime24 | src/lib/time.js:147-150 | in 24-hour mode the text is zero-padded HH:MM, equals labelHM, and reads back as h and m |
| Time.Hour12Range | src/lib/time.js:152 | the 12-hour clock hour is in 1..12, congruent to h modulo 12, and is 12 exactly for hours 0 and 12 |
| Time.FormatTime12 | src/lib/time.js:151-154 | in 12-hour mode the text ends in " PM" exactly when h ≥ 12 and in " AM" exactly when h < 12; for a wall-clock time it starts with digits reading back as a clock hour in 1..12 equal to h modulo 12, then a colon and two digits reading back as the minute |
| Time.FormatTimeTwelve | src/lib/time.js:151-154 | hour 0 reads "12:mm AM" and hour 12 reads "12:mm PM" |
| Base64Url.StdValueOfChar | src/lib/share.js:12 | decoding a base64 alphabet character gives back its 6-bit value |
| Base64Url.UrlChar | src/lib/share.js:6 | a base64url character is never '+', '/' or '=', and agrees with the standard alphabet on values below 62 |
| Base64Url.Btoa | src/lib/share.js:6 | btoa's text has length 4·ceil(n/3) |
| Base64Url.StripTrailing | src/lib/share.js:6 | removing trailing characters keeps a prefix that does not end in that character, and only that character was removed |
| Base64Url.ToBase64UrlText | src/lib/share.js:4-7 | toBase64Url writes the sextets in the URL alphabet without padding, has length ceil(4n/3), and contains no '+', '/' or '=' |
| Base64Url.PadFor | src/lib/share.js:10 | the restored padding makes the length a multiple of 4 and is shorter than 4 |
| Base64Url.Atob | src/lib/share.js:12 | a successful atob yields characters below 256 |
| Base64Url.AtobOfBtoa | src/lib/share.js:6-12 | atob undoes btoa |
| Base64Url.GroupRoundTrip | src/lib/share.js:4-18 | decoding the sextets of a group of one to three bytes gives the bytes back |
| Base64Url.DecodeSextetsOfSextets | src/lib/share.js:4-18 | the sextets of any byte string never leave a single dangling character and decode back to the bytes |
| Base64Url.FromBase64Url | src/lib/share.js:9-18 | the loop copying atob's characters into a byte array returns the value of `FromBase64UrlResult` |
| Base64Url.RoundTrip | src/lib/share.js:4-18 | `fromBase64Url(toBase64Url(b)) == b` for every byte string |
| Share.Clamp16 | src/lib/share.js:83-91 | the result lies in [0, 65535] and is the identity on in-range integers |
| Share.RoundMinutes | src/lib/share.js:31-32 | `Math.round(ms / 60000)` is the whole number of minutes nearest to ms, ties upward |
| Share.RoundWholeMinutes | src/lib/share.js:31-32 | rounding a whole number of minutes gives that number |
| Share.EntryBytes | src/lib/share.js:33-38 | a table entry is four bytes: the clamped start field big-endian, then the clamped length field big-endian |
| Share.EncodeBuffer | src/lib/share.js:21-41 | the cursor loop fills the array with exactly the bytes of `StateBytes(timezone, ranges)` |
| Share.WriteEntries | src/lib/share.js:29-39 | after writing `count` entries the cursor is at 2 + 4·count and the bytes before it are the header followed by the entries |
| Share.StateBytesLayout | src/lib/share.js:22-41 | the buffer has length 3 + 4·count + tz length; byte 0 is 1; byte 1 is count; entry i sits at offset 2 + 4i; then the tz length octet and the tz bytes |
| Share.OnlyFirstRangesWritten | src/lib/share.js:22-29 | only the first min(n, 255) ranges are written |
| Share.EncodeState | src/lib/share.js:21-43 | the token is the base64url text of the state buffer |
| Share.DecodeState | src/lib/share.js:45-81 | the method returns the value of `DecodeStateResult`: empty text fails first, then a base64 error, then the buffer checks |
| Share.DecodeBuffer | src/lib/share.js:50-80 | the cursor loop over the buffer returns the value of the specification function `DecodeBytes` |
| Share.DecodeBytesErrors | src/lib/share.js:51-78 | the only buffer errors are version, range values and timezone bytes; each happens exactly when the earlier checks pass and its own check fails |
| Share.EntriesFromValid | src/lib/share.js:61-74 | the entry loop succeeds exactly when every entry is valid, and any failure is "Invalid range values" with no partial result |
| Share.EntriesFromSuccess | src/lib/share.js:61-74 | a successful entry loop returns one range per entry, in order, each read at its own offset |
| Share.EntryOfShareable | src/lib/share.js:66-73 | an accepted entry's range has start in [REF, REF + 10080 min] on a whole minute and a positive duration that is a multiple of 30 minutes |
| Share.DecodedShareable | src/lib/share.js:55-74 | a decoded state has as many ranges as the count byte says, and each is shareable |
| Share.CountFitsOctet | src/lib/share.js:55-59 | the count read from one octet never exceeds 255, so the "Too many ranges" branch is unreachable |
| Share.EntryRoundTrip | src/lib/share.js:33-73 | reading back an encoded entry of a shareable range gives that range |
| Share.DecodeStateBytes | src/lib/share.js:21-80 | decoding the buffer of at most 255 shareable ranges and a tz of at most 255 bytes gives back the tz and the ranges |
| Share.StateRoundTrip | src/lib/share.js:21-80 | decodeState(encodeState(tz, rs)) returns tz and the same ranges, under the same conditions |
| Share.CutBeforeDuration | src/lib/share.js:62-69 | a buffer cut before entry i's duration bytes reads them as 0 and is rejected as invalid range values |
| Share.CutAfterTable | src/lib/share.js:75-79 | a buffer ending right after a valid range table decodes with the empty timezone |
| Share.TokenLength | src/lib/share.js:24-42 | the token length is ceil(4·(3 + 4·count + tz length)/3) |
| Share.UrlFitsIn2000 | src/lib/share.js:22-24 | with a zone name of at most 456 bytes, `https://example.com/?state=` plus the token has at most 2000 characters, for any number of ranges |
| App.RequestedSpanMinutes | src/App.jsx:43-52 | for startSlot ≤ endSlot in 0..47 the local span is [startSlot·30, (endSlot+1)·30) minutes, a positive multiple of 30; endSlot 47, and only it, gives hour 24 minute 0 |
| App.CandidateLastRow | src/App.jsx:48-54 | a span ending at row 47 ends at the instant of the next day's 00:00 |
| App.FixedOffsetDistance | src/App.jsx:43-56 | in a constant-offset zone, two wall-clock times of one day whose guesses are readable convert to instants their minute-of-day distance apart |
| App.CandidateLengthFixedOffset | src/App.jsx:43-56 | in a constant-offset zone, when the guesses for both ends are readable, the candidate range lasts exactly (endSlot+1−startSlot)·30 minutes |
| App.CandidateLengthUtcPlusOne | src/App.jsx:43-56 | rows 18..19 of 2025-01-06 in UTC+1 give a candidate of exactly one hour |
| App.Candidate | src/App.jsx:43-56 | the two localToUtc calls return the candidate's start and end instants |
| App.CandidateIn | src/App.jsx:46-56 | the candidate is computed on the reference Monday's local date shifted by dayIndex days |
| App.AnyOverlap | src/App.jsx:58-62 | the overlap check holds exactly when some stored range overlaps the candidate |
| App.AppendKeepsInvariants | src/App.jsx:66-68 | appending a non-overlapping range with the current counter as id keeps the list pairwise non-overlapping, ids distinct and all below the bumped counter |
| App.WithoutMembers | src/App.jsx:72-76 | after filtering by id, an entry remains exactly when it was present and has a different id |
| App.WithoutConcat | src/App.jsx:72-76 | the id filter of a concatenation is the concatenation of the filters, so the kept entries stay in their original order |
| App.WithoutAbsent | src/App.jsx:71-77 | deleting an id that is not present changes nothing, and deleting twice equals deleting once |
| App.WithoutKeepsPairwise | src/App.jsx:71-77 | deleting keeps any pairwise property of the list, in particular non-overlap and distinct ids |
| App.NumberedIds | src/App.jsx:118-122 | the loaded list has one entry per decoded range, in order, with the same instants, ids first, first+1, …, all distinct and below the new counter |
| App.DecodedFitsCap | src/App.jsx:113-122 | a decoded state holds at most 255 ranges, so a load never exceeds the cap |
| App.LoadKeepsOverlaps | src/App.jsx:117-122 | a valid token can load two overlapping ranges: the load does not re-check overlap |
| App.DayIndexOfAgrees | src/App.jsx:97-105 | dayIndexOf returns 0..6 and agrees with dayIndexFromParts for every zone and every local date |
| App.CompareIsKeyOrder | src/App.jsx:89-94 | the comparator is ≤ 0 exactly when (day index, hour, minute) is lexicographically ≤, and it is antisymmetric |
| App.InsertSorted | src/App.jsx:89-94 | inserting an item into an ascending list keeps it ascending and adds exactly that item |
| App.SortItemsSorted | src/App.jsx:89-94 | the sort returns an ascending permutation of its input |
| App.ItemsOfList | src/App.jsx:81-88 | the mapped list has one item per stored range, the local fields of its start and end |
| App.ListViewSorted | src/App.jsx:79-95 | the list view is a permutation of the stored ranges' items, ascending by (dayIndexOf, hour, minute) |
| App.FmtIsFormatTime | src/App.jsx:282-289 | fmt is formatTime: padded HH:MM of length 5 in 24-hour mode; otherwise a clock hour reading back as 1..12 and equal to h modulo 12, a colon, two digits reading back as the minute, and " PM" exactly when h ≥ 12, " AM" exactly when h < 12 |
| App.Planner.constructor | src/App.jsx:18-28 | the planner starts with the default zone, no ranges, counter 1 and every notice closed |
| App.Planner.AddRange | src/App.jsx:37-69 | at 255 ranges it only opens the cap notice; an overlapping candidate only opens the overlap notice; otherwise the range is appended last with id = counter, the counter is bumped and nothing else changes; count ≤ 255, distinct ids and non-overlap are kept |
| App.Planner.Append | src/App.jsx:66-68 | the range is appended last with the counter as id, the counter is bumped, and the invariants are kept |
| App.Planner.DeleteRange | src/App.jsx:71-77 | the list becomes the id filter of the old list; zone, counter and notices are unchanged; the invariants and non-overlap are kept |
| App.Planner.LoadState | src/App.jsx:108-128 | no or empty state changes nothing; a decode error only opens the invalid-state notice; otherwise an empty decoded zone keeps the current zone and the list becomes the decoded ranges numbered from the counter |
| App.Planner.Adopt | src/App.jsx:114-122 | a non-empty decoded zone replaces the zone; the list becomes the decoded ranges with ids counter, counter+1, …; the counter advances by their number |
| Calendar.SlotOfTime | src/components/AvailabilityCalendar.jsx:236 | a wall-clock time maps to a row in 0..47 whose half hour contains it |
| Calendar.EndSlotOfTime | src/components/AvailabilityCalendar.jsx:238-241 | an end time of 23:59, and only it, maps to the exclusive row 48; any other end maps to its own row |
| Calendar.BuildDaySlotMap | src/components/AvailabilityCalendar.jsx:227-255 | the nested loops fill seven columns with exactly the value of the specification function `DaySlotMap` |
| Calendar.MarkColumn | src/components/AvailabilityCalendar.jsx:242-251 | one segment adds the rows startIdx ≤ s < endIdxExclusive to its column and appends its record |
| Calendar.DaySlotMapSpec | src/components/AvailabilityCalendar.jsx:227-255 | seven columns; in each, a row is marked exactly when one of its records covers it; every segment of every range is recorded as {id, startIdx, endIdxExclusive} in the column of its day index, with its rows marked; conversely every record of a column is the record of a segment, with that day index, of some range |
| Calendar.FindFirstSpec | src/components/AvailabilityCalendar.jsx:263-265 | `find` returns the first element satisfying the test, and null exactly when none does |
| Calendar.HitTestSpec | src/components/AvailabilityCalendar.jsx:257-267 | hitTest returns the first record whose half-open row interval contains the row; in a built map it returns one exactly when the row is marked in an existing column |
| Calendar.HitTestBuilt | src/components/AvailabilityCalendar.jsx:227-267 | in a built map a click hits exactly when a segment of some stored range in the clicked column covers the row, so a free cell is never hit |
| Calendar.FindSegmentSpec | src/components/AvailabilityCalendar.jsx:290-300 | findSegment returns the first record starting at the row, and null exactly when none does |
| Calendar.ToLabelHMSpec | src/components/AvailabilityCalendar.jsx:269-280 | a row label is formatTime of hour slot/2 and minute 0 or 30 by parity; row 48 and beyond read as 00:00 |
| Calendar.FormatSlotSpec | src/components/AvailabilityCalendar.jsx:282-288 | the rail label of a row is formatTime of its hour on the hour |
| Calendar.Selection.OnCellClick | src/components/AvailabilityCalendar.jsx:31-49 | a click on a covered row does nothing; a first click, or one in another column, becomes pending; a second click in the same column requests (min, max) of the two rows and clears pending |

## Left out

- `fmtParts`, `tzShort` and `supportedTimeZones` call the host IANA
  database through `Intl`. A zone is an abstract function from an instant to
  its local fields; real daylight-saving rules are not modelled.
- `TextEncoder`/`TextDecoder`: a zone name is its byte sequence, so UTF-8
  transcoding, replacement characters and BOM handling are not modelled.
- `Date.UTC` TimeClip (instants beyond ±8.64e15 ms become NaN) is not
  modelled; instants are unbounded integers.
- URL and history plumbing (`URLSearchParams`, `window.location`,
  `replaceState`, the encode-on-change effect at src/App.jsx:131-139): the
  URL's `state` parameter is the `Option<string>` argument of `LoadState`.
- JSX rendering, React hooks, the confirmation dialogs, the "Clear All"
  dialogs, `TimezoneSelect`, `TimeFormatToggle` and the worker files are
  markup or I/O.
- App.Planner.AddRange: React applies `setAvailabilities` with an updater
  after the handler returns; the model applies it at once.
- App.Planner.Adopt: the module-level `idCounter` is a field of the planner,
  advanced once after the numbering loop rather than per element.
- App.Planner.LoadState: a load does not establish non-overlap, because the
  source does not check it (`App.LoadKeepsOverlaps`).
- App.SortItemsSorted: the sort is an insertion sort standing for
  `Array.prototype.sort`. Its result is proved ascending and a permutation,
  but stability is not stated.
- Calendar.DaySlotMapSpec: the order of records within a column is not
  stated beyond appending; `hitTest` and `findSegment` are specified against
  that order through `FindFirst`.
- Calendar.Selection.OnCellClick: the `onAddRange` call is returned as a
  value rather than invoked.
- Time.LocalToUtcFixedOffset: convergence after one correction is proved
  where the zone's offset is the same at the two guesses the loop reads and
  their wall clocks show years outside 0..99 (`Time.LocalToUtcSteadyOffset`);
  a wall clock showing a year 0..99 there, or an offset that changes near the
  requested time, is covered only by `Time.LocalToUtcConverged` (the result
  is right when the loop stopped on a zero difference).
- App.Planner.LoadState: `resolve` is total, so every loaded zone name
  denotes a zone. The source adopts a decoded name as is (src/App.jsx:114-116);
  a name the host's time-zone database does not know makes the next
  conversion (src/App.jsx:30-32) throw a RangeError, which is not modelled.
