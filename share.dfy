/** The shareable state (src/lib/share.js): the zone name and the stored
    ranges as a versioned byte buffer

      [ver u8][count u8][(start u16)(len u16)]*count[tzLen u8][tz bytes]

    with both 16-bit fields big-endian, carried in the URL as an unpadded
    base64url token.  The zone name is kept as its UTF-8 octets. */
module Share {
  import opened Prelude
  import opened Civil
  import opened Time
  import opened Base64Url

  /** A range as the codec sees it: two UTC instants in milliseconds. */
  datatype Span = Span(startUtc: Instant, endUtc: Instant)

  /** What `decodeState` returns. */
  datatype SharedState = SharedState(timezone: seq<byte>, ranges: seq<Span>)

  /** The errors `decodeState` throws, in the order it checks them; `Base64`
      is the error `atob` raises inside `fromBase64Url`. */
  datatype DecodeError =
    | EmptyState
    | Base64(cause: DomError)
    | UnsupportedVersion
    | InvalidRangeValues
    | InvalidTimezoneBytes

  const Version: byte := 1

  /** The range count is one octet. */
  const MaxRanges: nat := 255

  /** The largest start offset the decoder accepts: a week, in minutes. */
  const MaxStartMinutes: int := 7 * 24 * 60

  /** Durations are whole half-hours. */
  const SlotMinutes: int := 30

  // ---------------------------------------------------------------------
  // Encoding

  /** `clamp16(n)`: the nearest value of an unsigned 16-bit field. */
  function Clamp16(n: int): (r: int)
    ensures 0 <= r <= 65535
    ensures 0 <= n <= 65535 ==> r == n
  {
    if n < 0 then 0
    else if n > 65535 then 65535
    else n
  }

  /** `Math.round(ms / 60000)` for an integer `ms`: the nearest whole minute,
      a half minute rounding up. */
  function RoundMinutes(ms: int): (k: int)
    ensures k * MsPerMinute - MsPerMinute / 2 <= ms < k * MsPerMinute + MsPerMinute / 2
  {
    (2 * ms + MsPerMinute) / (2 * MsPerMinute)
  }

  /** A Uint8Array store, or `& 0xff` of a non-negative value. */
  function ByteOf(n: int): byte {
    (n % 256) as byte
  }

  /** The start field of a range: minutes after the reference Monday. */
  function StartField(r: Span): int {
    Clamp16(RoundMinutes(r.startUtc - RefMondayUtc))
  }

  /** The length field of a range: its duration in minutes. */
  function LengthField(r: Span): int {
    Clamp16(RoundMinutes(r.endUtc - r.startUtc))
  }

  /** The four octets of one range: each field high byte first. */
  function EntryBytes(r: Span): (e: seq<byte>)
    ensures |e| == 4
    ensures e[0] as int * 256 + e[1] as int == StartField(r)
    ensures e[2] as int * 256 + e[3] as int == LengthField(r)
  {
    var s, l := StartField(r), LengthField(r);
    [ByteOf(s / 256), ByteOf(s), ByteOf(l / 256), ByteOf(l)]
  }

  /** The range table of `ranges`, in order. */
  function EntriesBytes(ranges: seq<Span>): (b: seq<byte>)
    ensures |b| == 4 * |ranges|
  {
    if |ranges| == 0 then []
    else EntriesBytes(ranges[..|ranges| - 1]) + EntryBytes(ranges[|ranges| - 1])
  }

  /** How many ranges are written: at most 255. */
  function Count(ranges: seq<Span>): nat {
    Min(|ranges|, MaxRanges)
  }

  /** The buffer `encodeState` builds before base64url encoding it. */
  function StateBytes(timezone: seq<byte>, ranges: seq<Span>): seq<byte> {
    var count := Count(ranges);
    [Version, ByteOf(count)] + EntriesBytes(ranges[..count]) + [ByteOf(|timezone|)] + timezone
  }

  /** The token `encodeState(timezone, ranges)` returns. */
  function StateToken(timezone: seq<byte>, ranges: seq<Span>): string {
    ToBase64Url(StateBytes(timezone, ranges))
  }

  /** Fills the buffer through the cursor `o`, as `encodeState` does. */
  method EncodeBuffer(timezone: seq<byte>, ranges: seq<Span>) returns (buf: array<byte>)
    ensures fresh(buf) && buf[..] == StateBytes(timezone, ranges)
  {
    var count := Min(|ranges|, MaxRanges);
    buf := new byte[1 + 1 + count * 4 + 1 + |timezone|];
    buf[0] := Version;
    buf[1] := ByteOf(count);
    assert buf[..2] == [Version, ByteOf(count)];
    var o := WriteEntries(buf, ranges, count);
    ghost var table := buf[..o];
    buf[o] := ByteOf(|timezone|);
    PrefixGrowsByOne(buf[..], table, ByteOf(|timezone|));
    o := o + 1;
    ghost var header := buf[..o];
    forall j | 0 <= j < |timezone| {
      buf[o + j] := timezone[j];
    }
    Written(buf[..], header, timezone);
    assert header + timezone == StateBytes(timezone, ranges) by {
      assert count == Count(ranges);
    }
  }

  /** The loop of `encodeState`: the first `count` ranges written after the
      two header octets; returns the cursor past them. */
  method WriteEntries(buf: array<byte>, ranges: seq<Span>, count: nat) returns (o: nat)
    requires count <= |ranges| && 2 + 4 * count <= buf.Length
    modifies buf
    ensures o == 2 + 4 * count
    ensures buf[..o] == old(buf[..2]) + EntriesBytes(ranges[..count])
  {
    o := 2;
    for i := 0 to count
      invariant o == 2 + 4 * i
      invariant buf[..o] == old(buf[..2]) + EntriesBytes(ranges[..i])
    {
      ghost var written := buf[..o];
      PutEntry(buf, o, ranges[i]);
      EntriesBytesStep(ranges, i);
      assert written + EntryBytes(ranges[i]) == old(buf[..2]) + EntriesBytes(ranges[..i + 1]);
      o := o + 4;
    }
  }

  /** A buffer that starts with `written` and holds `b` next starts with
      `written + [b]`. */
  lemma PrefixGrowsByOne(buf: seq<byte>, written: seq<byte>, b: byte)
    requires |written| < |buf| && buf[..|written|] == written && buf[|written|] == b
    ensures buf[..|written| + 1] == written + [b]
  {
  }

  /** A buffer made of `header` and then the octets of `tail`. */
  lemma Written(buf: seq<byte>, header: seq<byte>, tail: seq<byte>)
    requires |buf| == |header| + |tail| && buf[..|header|] == header
    requires forall j :: 0 <= j < |tail| ==> buf[|header| + j] == tail[j]
    ensures buf == header + tail
  {
    assert buf == buf[..|header|] + buf[|header|..];
  }

  /** The four octets of one range written at `o`, high bytes first. */
  method PutEntry(buf: array<byte>, o: nat, r: Span)
    requires o + 4 <= buf.Length
    modifies buf
    ensures buf[..o + 4] == old(buf[..o]) + EntryBytes(r)
  {
    var s := Clamp16(RoundMinutes(r.startUtc - RefMondayUtc));
    var l := Clamp16(RoundMinutes(r.endUtc - r.startUtc));
    ghost var written, e := buf[..o], EntryBytes(r);
    assert e == [ByteOf(s / 256), ByteOf(s), ByteOf(l / 256), ByteOf(l)];
    buf[o] := ByteOf(s / 256);
    buf[o + 1] := ByteOf(s);
    buf[o + 2] := ByteOf(l / 256);
    buf[o + 3] := ByteOf(l);
    PrefixGrows(buf[..], written, e);
  }

  lemma PrefixGrows(buf: seq<byte>, written: seq<byte>, e: seq<byte>)
    requires |e| == 4 && |written| + 4 <= |buf| && buf[..|written|] == written
    requires buf[|written|] == e[0] && buf[|written| + 1] == e[1]
    requires buf[|written| + 2] == e[2] && buf[|written| + 3] == e[3]
    ensures buf[..|written| + 4] == written + e
  {
  }

  /** The table of one more range is the old table and its entry. */
  lemma EntriesBytesStep(ranges: seq<Span>, i: nat)
    requires i < |ranges|
    ensures EntriesBytes(ranges[..i + 1]) == EntriesBytes(ranges[..i]) + EntryBytes(ranges[i])
  {
    assert ranges[..i + 1][..i] == ranges[..i];
  }

  /** `encodeState(timezone, ranges)`. */
  method EncodeState(timezone: seq<byte>, ranges: seq<Span>) returns (token: string)
    ensures token == StateToken(timezone, ranges)
  {
    var buf := EncodeBuffer(timezone, ranges);
    token := ToBase64Url(buf[..]);
  }

  // ---------------------------------------------------------------------
  // Decoding

  /** `buf[i]` on a Uint8Array: `undefined` past the end. */
  function At(buf: seq<byte>, i: int): Option<byte> {
    if 0 <= i < |buf| then Some(buf[i]) else None
  }

  /** An octet read as an operand of `<<` or `|`: `undefined` counts as 0. */
  function Num(v: Option<byte>): (n: int)
    ensures 0 <= n < 256
  {
    if v.Some? then v.value as int else 0
  }

  /** `(hi << 8) | lo` for two octet reads. */
  function Word(hi: Option<byte>, lo: Option<byte>): (w: int)
    ensures 0 <= w < 65536
  {
    Num(hi) * 256 + Num(lo)
  }

  /** The range the decoder builds from a start field and a length field,
      or the error it throws for them. */
  function EntryOf(startMin: int, lenMin: int): Result<Span, DecodeError> {
    if startMin > MaxStartMinutes || lenMin <= 0 || lenMin % SlotMinutes != 0 then
      Failure(InvalidRangeValues)
    else
      var startUtc := RefMondayUtc + startMin * MsPerMinute;
      Success(Span(startUtc, startUtc + lenMin * MsPerMinute))
  }

  /** The range entry at offset `o`. */
  function ReadEntry(buf: seq<byte>, o: int): Result<Span, DecodeError> {
    EntryOf(Word(At(buf, o), At(buf, o + 1)), Word(At(buf, o + 2), At(buf, o + 3)))
  }

  /** The decoder's loop: `k` more entries from offset `o`, appended to
      those already read. */
  function EntriesFrom(buf: seq<byte>, o: int, k: nat, read: seq<Span>): Result<seq<Span>, DecodeError>
    decreases k
  {
    if k == 0 then Success(read)
    else
      match ReadEntry(buf, o)
      case Failure(e) => Failure(e)
      case Success(r) => EntriesFrom(buf, o + 4, k - 1, read + [r])
  }

  /** The zone name whose length octet is at `o`.  When that octet is
      missing, `o + tzLen` is NaN: the bound test is false and the slice
      is empty. */
  function TimezoneAt(buf: seq<byte>, o: int): Result<seq<byte>, DecodeError>
    requires 0 <= o
  {
    match At(buf, o)
    case None => Success([])
    case Some(len) =>
      if o + 1 + len as int > |buf| then Failure(InvalidTimezoneBytes)
      else Success(buf[o + 1..o + 1 + len as int])
  }

  /** What `decodeState` makes of the decoded buffer. */
  function DecodeBytes(buf: seq<byte>): Result<SharedState, DecodeError> {
    if At(buf, 0) != Some(Version) then Failure(UnsupportedVersion)
    else
      var count := Num(At(buf, 1));
      match EntriesFrom(buf, 2, count, [])
      case Failure(e) => Failure(e)
      case Success(ranges) =>
        match TimezoneAt(buf, 2 + 4 * count)
        case Failure(e) => Failure(e)
        case Success(tz) => Success(SharedState(tz, ranges))
  }

  /** What `decodeState(s)` returns or throws. */
  function DecodeStateResult(s: string): Result<SharedState, DecodeError> {
    if |s| == 0 then Failure(EmptyState)
    else
      match FromBase64UrlResult(s)
      case Failure(e) => Failure(Base64(e))
      case Success(buf) => DecodeBytes(buf)
  }

  /** `decodeState(s)`. */
  method DecodeState(s: string) returns (r: Result<SharedState, DecodeError>)
    ensures r == DecodeStateResult(s)
  {
    if |s| == 0 {
      return Failure(EmptyState);
    }
    var decoded := FromBase64Url(s);
    if decoded.Failure? {
      return Failure(Base64(decoded.error));
    }
    r := DecodeBuffer(decoded.value);
  }

  /** The body of `decodeState` after `fromBase64Url`: reads the buffer
      through the cursor `o`. */
  method DecodeBuffer(buf: seq<byte>) returns (r: Result<SharedState, DecodeError>)
    ensures r == DecodeBytes(buf)
  {
    var o := 0;
    var ver := At(buf, o);
    o := o + 1;
    if ver != Some(Version) {
      return Failure(UnsupportedVersion);
    }
    var count := Num(At(buf, o));
    o := o + 1;
    var ranges: seq<Span> := [];
    for i := 0 to count
      invariant o == 2 + 4 * i
      invariant EntriesFrom(buf, 2, count, []) == EntriesFrom(buf, o, count - i, ranges)
    {
      var sHi := At(buf, o);
      var sLo := At(buf, o + 1);
      var lHi := At(buf, o + 2);
      var lLo := At(buf, o + 3);
      var startMin := Word(sHi, sLo);
      var lenMin := Word(lHi, lLo);
      ghost var entry := ReadEntry(buf, o);
      assert entry == EntryOf(startMin, lenMin);
      if startMin > MaxStartMinutes || lenMin <= 0 || lenMin % SlotMinutes != 0 {
        EntriesFromFails(buf, o, count - i, ranges);
        return Failure(InvalidRangeValues);
      }
      var startUtc := RefMondayUtc + startMin * MsPerMinute;
      var endUtc := startUtc + lenMin * MsPerMinute;
      EntriesFromStep(buf, o, count - i, ranges, Span(startUtc, endUtc));
      ranges := ranges + [Span(startUtc, endUtc)];
      o := o + 4;
    }
    var tzLen := At(buf, o);
    o := o + 1;
    if tzLen.Some? && o + tzLen.value as int > |buf| {
      return Failure(InvalidTimezoneBytes);
    }
    var tz := if tzLen.Some? then buf[o..o + tzLen.value as int] else [];
    return Success(SharedState(tz, ranges));
  }

  /** One round of the decoder's loop on a valid entry. */
  lemma EntriesFromStep(buf: seq<byte>, o: int, k: nat, read: seq<Span>, r: Span)
    requires k > 0 && ReadEntry(buf, o) == Success(r)
    ensures EntriesFrom(buf, o, k, read) == EntriesFrom(buf, o + 4, k - 1, read + [r])
  {
  }

  /** The decoder's loop stops at an invalid entry. */
  lemma EntriesFromFails(buf: seq<byte>, o: int, k: nat, read: seq<Span>)
    requires k > 0 && ReadEntry(buf, o).Failure?
    ensures EntriesFrom(buf, o, k, read) == Failure(InvalidRangeValues)
  {
  }

  // ---------------------------------------------------------------------
  // The layout

  /** Entry `i` of the range table starts at offset `2 + 4 i` of `buf`. */
  ghost predicate TableAt(buf: seq<byte>, ranges: seq<Span>, count: nat)
    requires count <= |ranges| && 2 + 4 * count <= |buf|
  {
    forall i :: 0 <= i < count ==> buf[2 + 4 * i..6 + 4 * i] == EntryBytes(ranges[i])
  }

  /** The buffer layout, octet by octet: version 1, the count, the first
      `count` ranges four octets each, the zone name's length octet (its
      low eight bits) and the zone name. */
  ghost predicate Layout(buf: seq<byte>, timezone: seq<byte>, ranges: seq<Span>) {
    var count := Count(ranges);
    && |buf| == 3 + 4 * count + |timezone|
    && buf[0] == Version && buf[1] as int == count
    && TableAt(buf, ranges, count)
    && buf[2 + 4 * count] as int == |timezone| % 256
    && buf[3 + 4 * count..] == timezone
  }

  /** Entry `i` of the range table sits at offset `4 i`. */
  lemma {:induction false} EntriesBytesAt(ranges: seq<Span>, i: nat)
    requires i < |ranges|
    ensures EntriesBytes(ranges)[4 * i..4 * i + 4] == EntryBytes(ranges[i])
    decreases |ranges|
  {
    var n := |ranges| - 1;
    var init := ranges[..n];
    var table := EntriesBytes(init);
    assert EntriesBytes(ranges) == table + EntryBytes(ranges[n]);
    if i < n {
      EntriesBytesAt(init, i);
      assert init[i] == ranges[i];
      SliceOfFront(table, EntryBytes(ranges[n]), 4 * i, 4 * i + 4);
    } else {
      assert |table| == 4 * i;
      SliceOfBack(table, EntryBytes(ranges[n]));
    }
  }

  /** A slice within the front part of a concatenation. */
  lemma SliceOfFront(a: seq<byte>, b: seq<byte>, lo: int, hi: int)
    requires 0 <= lo <= hi <= |a|
    ensures (a + b)[lo..hi] == a[lo..hi]
  {
  }

  /** The back part of a concatenation. */
  lemma SliceOfBack(a: seq<byte>, b: seq<byte>)
    ensures (a + b)[|a|..|a| + |b|] == b
  {
  }

  /** A slice within the second of four concatenated parts. */
  lemma SliceOfSecond(p: seq<byte>, a: seq<byte>, x: seq<byte>, q: seq<byte>, lo: int, hi: int)
    requires 0 <= lo <= hi <= |a|
    ensures (p + a + x + q)[|p| + lo..|p| + hi] == a[lo..hi]
  {
    assert p + a + x + q == p + (a + (x + q));
  }

  /** `encodeState` lays the buffer out as described. */
  lemma StateBytesLayout(timezone: seq<byte>, ranges: seq<Span>)
    ensures Layout(StateBytes(timezone, ranges), timezone, ranges)
  {
    var count := Count(ranges);
    var table := EntriesBytes(ranges[..count]);
    var buf := StateBytes(timezone, ranges);
    assert buf == [Version, ByteOf(count)] + table + [ByteOf(|timezone|)] + timezone;
    forall i | 0 <= i < count
      ensures buf[2 + 4 * i..6 + 4 * i] == EntryBytes(ranges[i])
    {
      EntriesBytesAt(ranges[..count], i);
      SliceOfSecond([Version, ByteOf(count)], table, [ByteOf(|timezone|)], timezone, 4 * i, 4 * i + 4);
    }
    assert buf[2 + 4 * count] == ByteOf(|timezone|);
  }

  /** Ranges past the 255th are not written. */
  lemma OnlyFirstRangesWritten(timezone: seq<byte>, ranges: seq<Span>)
    ensures StateBytes(timezone, ranges) == StateBytes(timezone, ranges[..Count(ranges)])
  {
    var count := Count(ranges);
    assert Count(ranges[..count]) == count;
    assert ranges[..count][..count] == ranges[..count];
  }

  // ---------------------------------------------------------------------
  // Round trip

  /** The ranges the codec carries exactly: minute-aligned, starting within
      the week after the reference Monday, and lasting a positive whole
      number of half-hours that fits the 16-bit field. */
  predicate Shareable(r: Span) {
    var offset, length := r.startUtc - RefMondayUtc, r.endUtc - r.startUtc;
    && offset % MsPerMinute == 0 && 0 <= offset <= MaxStartMinutes * MsPerMinute
    && length % (SlotMinutes * MsPerMinute) == 0 && 0 < length <= 65535 * MsPerMinute
  }

  /** Rounding a whole number of minutes gives that number. */
  lemma RoundWholeMinutes(k: int)
    ensures RoundMinutes(k * MsPerMinute) == k
  {
    var r := RoundMinutes(k * MsPerMinute);
    assert (r - k) * MsPerMinute < MsPerMinute / 2;
    assert (k - r) * MsPerMinute <= MsPerMinute / 2;
  }

  /** The fields written for a shareable range. */
  lemma ShareableFields(r: Span)
    requires Shareable(r)
    ensures StartField(r) * MsPerMinute == r.startUtc - RefMondayUtc
    ensures LengthField(r) * MsPerMinute == r.endUtc - r.startUtc
    ensures StartField(r) <= MaxStartMinutes
    ensures 0 < LengthField(r) && LengthField(r) % SlotMinutes == 0
  {
    var offset, length := r.startUtc - RefMondayUtc, r.endUtc - r.startUtc;
    var start, q := offset / MsPerMinute, length / (SlotMinutes * MsPerMinute);
    assert offset == start * MsPerMinute;
    assert length == (30 * q) * MsPerMinute;
    RoundWholeMinutes(start);
    RoundWholeMinutes(30 * q);
    assert StartField(r) == start;
    assert LengthField(r) == 30 * q;
  }

  /** The decoder reads a shareable range back from its four octets. */
  lemma EntryRoundTrip(buf: seq<byte>, o: int, r: Span)
    requires Shareable(r) && 0 <= o && o + 4 <= |buf| && buf[o..o + 4] == EntryBytes(r)
    ensures ReadEntry(buf, o) == Success(r)
  {
    var e := EntryBytes(r);
    assert At(buf, o) == Some(e[0]) && At(buf, o + 1) == Some(e[1]);
    assert At(buf, o + 2) == Some(e[2]) && At(buf, o + 3) == Some(e[3]);
    ShareableFields(r);
  }

  /** The decoder's loop reads back the encoded ranges from entry `j` on. */
  lemma {:induction false} EntriesRoundTrip(buf: seq<byte>, ranges: seq<Span>, j: nat)
    requires j <= |ranges| && 2 + 4 * |ranges| <= |buf|
    requires TableAt(buf, ranges, |ranges|)
    requires forall r :: r in ranges ==> Shareable(r)
    ensures EntriesFrom(buf, 2 + 4 * j, |ranges| - j, ranges[..j]) == Success(ranges)
    decreases |ranges| - j
  {
    if j == |ranges| {
      assert ranges[..j] == ranges;
    } else {
      assert buf[2 + 4 * j..6 + 4 * j] == EntryBytes(ranges[j]);
      EntryRoundTrip(buf, 2 + 4 * j, ranges[j]);
      assert ranges[..j] + [ranges[j]] == ranges[..j + 1];
      EntriesRoundTrip(buf, ranges, j + 1);
    }
  }

  /** The buffer decodes to the zone name and ranges it was built from. */
  lemma DecodeStateBytes(timezone: seq<byte>, ranges: seq<Span>)
    requires |ranges| <= MaxRanges && |timezone| <= 255
    requires forall r :: r in ranges ==> Shareable(r)
    ensures DecodeBytes(StateBytes(timezone, ranges)) == Success(SharedState(timezone, ranges))
  {
    var buf := StateBytes(timezone, ranges);
    var count := |ranges|;
    StateBytesLayout(timezone, ranges);
    assert At(buf, 0) == Some(Version) && Num(At(buf, 1)) == count;
    EntriesRoundTrip(buf, ranges, 0);
    assert ranges[..0] == [];
    var o := 2 + 4 * count;
    assert At(buf, o) == Some(buf[o]) && buf[o] as int == |timezone|;
    assert buf[o + 1..o + 1 + |timezone|] == timezone;
  }

  /** Round trip: `decodeState(encodeState(tz, ranges))` gives back the zone
      name and the ranges when there are at most 255 of them, the name has
      at most 255 octets and every range is shareable. */
  lemma StateRoundTrip(timezone: seq<byte>, ranges: seq<Span>)
    requires |ranges| <= MaxRanges && |timezone| <= 255
    requires forall r :: r in ranges ==> Shareable(r)
    ensures DecodeStateResult(StateToken(timezone, ranges)) == Success(SharedState(timezone, ranges))
  {
    var buf := StateBytes(timezone, ranges);
    ToBase64UrlText(buf);
    RoundTrip(buf);
    DecodeStateBytes(timezone, ranges);
  }

  // ---------------------------------------------------------------------
  // What the decoder accepts and rejects

  /** Whether the `k` range entries from offset `o` all pass the value
      checks. */
  ghost predicate EntriesValid(buf: seq<byte>, o: int, k: nat) {
    forall i :: 0 <= i < k ==> ReadEntry(buf, o + 4 * i).Success?
  }

  /** The entries from `o` are valid when the first is and those after it
      are. */
  lemma EntriesValidStep(buf: seq<byte>, o: int, k: nat)
    requires k > 0
    ensures EntriesValid(buf, o, k) <==>
              ReadEntry(buf, o).Success? && EntriesValid(buf, o + 4, k - 1)
  {
    if EntriesValid(buf, o, k) {
      assert ReadEntry(buf, o + 4 * 0).Success?;
      forall i | 0 <= i < k - 1
        ensures ReadEntry(buf, o + 4 + 4 * i).Success?
      {
        assert o + 4 + 4 * i == o + 4 * (i + 1);
      }
    }
    if ReadEntry(buf, o).Success? && EntriesValid(buf, o + 4, k - 1) {
      forall i | 0 <= i < k
        ensures ReadEntry(buf, o + 4 * i).Success?
      {
        if i > 0 {
          assert o + 4 * i == o + 4 + 4 * (i - 1);
        }
      }
    }
  }

  /** The decoder's loop succeeds exactly when all its entries are valid;
      otherwise it fails with "Invalid range values". */
  lemma {:induction false} EntriesFromValid(buf: seq<byte>, o: int, k: nat, read: seq<Span>)
    ensures EntriesFrom(buf, o, k, read).Success? <==> EntriesValid(buf, o, k)
    ensures EntriesFrom(buf, o, k, read).Failure? ==>
              EntriesFrom(buf, o, k, read).error == InvalidRangeValues
    decreases k
  {
    if k > 0 {
      EntriesValidStep(buf, o, k);
      if ReadEntry(buf, o).Success? {
        var r := ReadEntry(buf, o).value;
        EntriesFromValid(buf, o + 4, k - 1, read + [r]);
        EntriesFromStep(buf, o, k, read, r);
      }
    }
  }

  /** When the decoder's loop succeeds it appends one range per entry, the
      range that entry reads as. */
  lemma {:induction false} EntriesFromSuccess(buf: seq<byte>, o: int, k: nat, read: seq<Span>)
    requires EntriesFrom(buf, o, k, read).Success?
    ensures var got := EntriesFrom(buf, o, k, read).value;
              |got| == |read| + k && got[..|read|] == read &&
              forall i :: 0 <= i < k ==> ReadEntry(buf, o + 4 * i) == Success(got[|read| + i])
    decreases k
  {
    if k > 0 {
      var r := ReadEntry(buf, o).value;
      EntriesFromSuccess(buf, o + 4, k - 1, read + [r]);
      EntriesFromStep(buf, o, k, read, r);
      var got := EntriesFrom(buf, o + 4, k - 1, read + [r]).value;
      assert got[..|read| + 1][..|read|] == got[..|read|];
      forall i | 0 <= i < k
        ensures ReadEntry(buf, o + 4 * i) == Success(got[|read| + i])
      {
        if i > 0 {
          assert o + 4 * i == o + 4 + 4 * (i - 1);
        }
      }
    }
  }

  /** A range the decoder accepts is shareable. */
  lemma EntryOfShareable(startMin: int, lenMin: int)
    requires 0 <= startMin < 65536 && 0 <= lenMin < 65536
    requires EntryOf(startMin, lenMin).Success?
    ensures Shareable(EntryOf(startMin, lenMin).value)
  {
    var q := lenMin / SlotMinutes;
    assert lenMin == 30 * q;
    assert lenMin * MsPerMinute == q * (SlotMinutes * MsPerMinute);
  }

  /** The checks of `decodeState` on the decoded buffer, in order: the
      version, then every range entry, then the zone name's length; no
      partial result is returned. */
  lemma DecodeBytesErrors(buf: seq<byte>)
    ensures DecodeBytes(buf).Failure? ==>
              DecodeBytes(buf).error in {UnsupportedVersion, InvalidRangeValues, InvalidTimezoneBytes}
    ensures DecodeBytes(buf) == Failure(UnsupportedVersion) <==> At(buf, 0) != Some(Version)
    ensures DecodeBytes(buf) == Failure(InvalidRangeValues) <==>
              At(buf, 0) == Some(Version) && !EntriesValid(buf, 2, Num(At(buf, 1)))
    ensures DecodeBytes(buf) == Failure(InvalidTimezoneBytes) <==>
              && At(buf, 0) == Some(Version) && EntriesValid(buf, 2, Num(At(buf, 1)))
              && TimezoneAt(buf, 2 + 4 * Num(At(buf, 1))).Failure?
  {
    EntriesFromValid(buf, 2, Num(At(buf, 1)), []);
  }

  /** Every range `decodeState` returns is shareable: it starts within the
      week after the reference Monday and lasts a positive whole number of
      half-hours.  There is one per entry. */
  lemma DecodedShareable(buf: seq<byte>)
    requires DecodeBytes(buf).Success?
    ensures |DecodeBytes(buf).value.ranges| == Num(At(buf, 1))
    ensures forall r :: r in DecodeBytes(buf).value.ranges ==> Shareable(r)
  {
    var count := Num(At(buf, 1));
    EntriesFromSuccess(buf, 2, count, []);
    var got := EntriesFrom(buf, 2, count, []).value;
    forall r | r in got
      ensures Shareable(r)
    {
      var i :| 0 <= i < |got| && got[i] == r;
      var o := 2 + 4 * i;
      assert ReadEntry(buf, o) == Success(got[i]);
      EntryOfShareable(Word(At(buf, o), At(buf, o + 1)), Word(At(buf, o + 2), At(buf, o + 3)));
    }
  }

  /** The count is one octet, so the test `count > 255` never fires. */
  lemma CountFitsOctet(buf: seq<byte>)
    ensures Num(At(buf, 1)) <= MaxRanges
  {
  }

  /** A buffer that ends before the duration octets of one of its range
      entries is rejected: the missing octets read as 0. */
  lemma CutBeforeDuration(buf: seq<byte>, i: nat)
    requires At(buf, 0) == Some(Version) && i < Num(At(buf, 1))
    requires |buf| <= 4 + 4 * i
    ensures DecodeBytes(buf) == Failure(InvalidRangeValues)
  {
    var o := 2 + 4 * i;
    assert At(buf, o + 2) == None && At(buf, o + 3) == None;
    assert ReadEntry(buf, o).Failure?;
    DecodeBytesErrors(buf);
  }

  /** A buffer that ends right after a valid range table has no zone name
      length octet: it decodes with the empty zone name. */
  lemma CutAfterTable(buf: seq<byte>)
    requires At(buf, 0) == Some(Version) && |buf| == 2 + 4 * Num(At(buf, 1))
    requires EntriesValid(buf, 2, Num(At(buf, 1)))
    ensures DecodeBytes(buf).Success? && DecodeBytes(buf).value.timezone == []
  {
    DecodeBytesErrors(buf);
    assert At(buf, 2 + 4 * Num(At(buf, 1))) == None;
  }

  // ---------------------------------------------------------------------
  // Size

  /** The full URL a shared state is measured in. */
  const ExampleUrlPrefix: string := "https://example.com/?state="

  /** The token has ceil(4 n / 3) characters for a buffer of n octets. */
  lemma TokenLength(timezone: seq<byte>, ranges: seq<Span>)
    ensures |StateToken(timezone, ranges)| == (4 * (3 + 4 * Count(ranges) + |timezone|) + 2) / 3
  {
    StateBytesLayout(timezone, ranges);
    ToBase64UrlText(StateBytes(timezone, ranges));
  }

  /** Any number of ranges with a zone name of up to 456 octets (the
      longest IANA name has 32) fits a URL of 2000 characters. */
  lemma UrlFitsIn2000(timezone: seq<byte>, ranges: seq<Span>)
    requires |timezone| <= 456
    ensures |ExampleUrlPrefix + StateToken(timezone, ranges)| <= 2000
  {
    TokenLength(timezone, ranges);
    var n := 3 + 4 * Count(ranges) + |timezone|;
    assert n <= 1479;
    assert (4 * n + 2) / 3 <= 1972;
  }
}
